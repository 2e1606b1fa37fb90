/**
 * The table model shared by every operation of the preprocessing module.
 *
 * A table is a sequence of rows indexed by strictly increasing integer timestamps
 * (milliseconds), a sequence of named columns of a given kind, and an optional
 * name tag (the `name` attribute the source staples onto its data frames).
 * Row selection by boolean mask and by `.loc` label slice are both expressed with
 * `Positions`: the ascending list of row positions a predicate keeps.
 */
module Frame {
  import opened Wrappers

  /** A cell: an integer reading, a text label, or the missing marker (NaN / None). */
  datatype Cell = Num(v: int) | Text(s: string) | Missing

  /** The dtype of a column: numeric, or object (strings and mixed values). */
  datatype Kind = Numeric | Object

  datatype Column = Column(name: string, kind: Kind, cells: seq<Cell>)

  datatype Table = Table(index: seq<int>, columns: seq<Column>, name: Option<Cell>)

  /** The errors the modelled code raises. */
  datatype Failure =
    | IndexOutOfBounds   // indexing an empty selection with [0] or [-1]
    | NotCsvFile         // "Not a csv file"

  /** An optional duration argument in milliseconds, falling back to its declared default. */
  function DurationOr(d: Option<int>, default: int): int {
    if d.Some? then d.value else default
  }

  predicate StrictlyIncreasing(s: seq<int>) {
    forall i, j :: 0 <= i < j < |s| ==> s[i] < s[j]
  }

  /** Every column has one cell per row, a numeric column holds no text, and the index is sorted. */
  predicate WellFormed(t: Table) {
    && StrictlyIncreasing(t.index)
    && (forall c :: c in t.columns ==> |c.cells| == |t.index|)
    && (forall c :: c in t.columns && c.kind == Numeric ==> forall x :: x in c.cells ==> !x.Text?)
  }

  function NameAt(cols: seq<Column>, i: nat): string
    requires i < |cols|
  {
    cols[i].name
  }

  /** No two columns share a name. */
  predicate DistinctNames(cols: seq<Column>) {
    forall i: nat, j: nat :: i < j < |cols| ==> NameAt(cols, i) != NameAt(cols, j)
  }

  /** A Python column position: negative values count from the end. */
  predicate ValidColumnIndex(n: nat, i: int) {
    -(n as int) <= i < n
  }

  function ResolveColumn(n: nat, i: int): (k: nat)
    requires ValidColumnIndex(n, i)
    ensures k < n
  {
    if i < 0 then i + n else i
  }

  /**
   * A row filter: `.loc[lo:hi]` on a sorted index (the rows whose timestamp lies in the CLOSED
   * interval [lo, hi]), `.loc[lo:]` (the rows at or after `lo`), the boolean mask `cells == v`
   * (false on every row when `v` is missing, as NaN and None compare unequal to everything),
   * or the mask `cells > bound` (false on a missing value, as NaN compares false).
   */
  datatype Filter =
    | Window(times: seq<int>, lo: int, hi: int)
    | From(times: seq<int>, lo: int)
    | Match(cells: seq<Cell>, v: Cell)
    | Above(cells: seq<Cell>, bound: int)

  /** Whether the filter keeps row `k`. */
  predicate Keeps(f: Filter, k: nat) {
    match f
    case Window(times, lo, hi) => k < |times| && lo <= times[k] <= hi
    case From(times, lo) => k < |times| && lo <= times[k]
    case Match(cells, v) => v != Missing && k < |cells| && cells[k] == v
    case Above(cells, bound) => k < |cells| && cells[k].Num? && cells[k].v > bound
  }

  /**
   * The ascending positions below `n` that `f` keeps: a boolean mask turned into row numbers.
   * What it returns is stated by `PositionsSpec`.
   */
  function Positions(f: Filter, n: nat): seq<nat>
  {
    if n == 0 then [] else Positions(f, n - 1) + (if Keeps(f, n - 1) then [n - 1] else [])
  }

  /** The elements of `s` at the positions `ps`, in that order. */
  function Pick<T>(s: seq<T>, ps: seq<nat>): seq<T>
    requires forall j :: 0 <= j < |ps| ==> ps[j] < |s|
  {
    seq(|ps|, j requires 0 <= j < |ps| => s[ps[j]])
  }

  /** The consecutive integers lo, lo + 1, ..., hi - 1. */
  function Range(lo: int, hi: int): (r: seq<int>)
    requires lo <= hi
  {
    seq(hi - lo, j => lo + j)
  }

  /** The rows of `t` at positions `ps`, every column cut the same way; the name tag is kept. */
  function SelectRows(t: Table, ps: seq<nat>): Table
    requires WellFormed(t)
    requires forall j :: 0 <= j < |ps| ==> ps[j] < |t.index|
  {
    Table(Pick(t.index, ps),
          seq(|t.columns|, i requires 0 <= i < |t.columns| =>
            assert t.columns[i] in t.columns;
            t.columns[i].(cells := Pick(t.columns[i].cells, ps))),
          t.name)
  }

  // ----- the row selections used by the operations -----

  /** `.loc[lo:hi]` on a sorted index. */
  function WindowPositions(times: seq<int>, lo: int, hi: int): seq<nat> {
    Positions(Window(times, lo, hi), |times|)
  }

  /** `.loc[lo:]` on a sorted index. */
  function TailPositions(times: seq<int>, lo: int): seq<nat> {
    Positions(From(times, lo), |times|)
  }

  /** `t.loc[lo:hi]` on a table with a sorted index: the rows whose timestamp lies in [lo, hi]. */
  function SliceWindow(t: Table, lo: int, hi: int): Table
    requires WellFormed(t)
  {
    WindowPositionsSpec(t.index, lo, hi);
    SelectRows(t, WindowPositions(t.index, lo, hi))
  }

  /** The boolean mask `column == v` as row positions. */
  function MatchPositions(cells: seq<Cell>, v: Cell): seq<nat> {
    Positions(Match(cells, v), |cells|)
  }

  /** The boolean mask `column > bound` as row positions. */
  function AbovePositions(cells: seq<Cell>, bound: int): seq<nat> {
    Positions(Above(cells, bound), |cells|)
  }

  // ----- lemmas about row selection -----

  /** Selecting rows at ascending positions keeps a table well formed, with the same columns. */
  lemma SelectRowsWellFormed(t: Table, ps: seq<nat>)
    requires WellFormed(t)
    requires forall j :: 0 <= j < |ps| ==> ps[j] < |t.index|
    requires forall i, j :: 0 <= i < j < |ps| ==> ps[i] < ps[j]
    ensures var r := SelectRows(t, ps);
      && WellFormed(r)
      && |r.index| == |ps|
      && |r.columns| == |t.columns|
      && r.name == t.name
      && forall i :: 0 <= i < |t.columns| ==>
           r.columns[i].name == t.columns[i].name && r.columns[i].kind == t.columns[i].kind
  {
    var r := SelectRows(t, ps);
    forall c | c in r.columns && c.kind == Numeric
      ensures forall x :: x in c.cells ==> !x.Text?
    {
      var i :| 0 <= i < |r.columns| && r.columns[i] == c;
      assert t.columns[i] in t.columns;
      forall x | x in c.cells ensures !x.Text? {
        var j :| 0 <= j < |c.cells| && c.cells[j] == x;
        assert x in t.columns[i].cells;
      }
    }
  }

  // ----- lemmas about positions and picking -----

  /**
   * `Positions(f, n)` lists, in ascending order, exactly the positions below `n` that `f` keeps.
   */
  lemma {:induction false} PositionsSpec(f: Filter, n: nat)
    ensures var ps := Positions(f, n);
      && (forall j :: 0 <= j < |ps| ==> ps[j] < n && Keeps(f, ps[j]))
      && (forall k: nat :: k < n && Keeps(f, k) ==> k in ps)
      && (forall i, j :: 0 <= i < j < |ps| ==> ps[i] < ps[j])
  {
    if n > 0 {
      PositionsSpec(f, n - 1);
    }
  }

  /** A filter that keeps no row selects no position. */
  lemma {:induction false} NothingKept(f: Filter, n: nat)
    requires forall k: nat :: !Keeps(f, k)
    ensures Positions(f, n) == []
  {
    if n > 0 {
      NothingKept(f, n - 1);
    }
  }

  /** All positions a selection returns are row numbers of the table it reads, in ascending order. */
  predicate AscendingBelow(ps: seq<nat>, n: nat) {
    && (forall j :: 0 <= j < |ps| ==> ps[j] < n)
    && (forall i, j :: 0 <= i < j < |ps| ==> ps[i] < ps[j])
  }

  /** `.loc[lo:hi]` keeps, in order, exactly the rows whose timestamp lies in [lo, hi]. */
  lemma WindowPositionsSpec(times: seq<int>, lo: int, hi: int)
    ensures var ps := WindowPositions(times, lo, hi);
      && AscendingBelow(ps, |times|)
      && (forall j :: 0 <= j < |ps| ==> lo <= times[ps[j]] <= hi)
      && (forall k: nat :: k < |times| ==> (k in ps <==> lo <= times[k] <= hi))
  {
    PositionsSpec(Window(times, lo, hi), |times|);
    assert WindowPositions(times, lo, hi) == Positions(Window(times, lo, hi), |times|);
  }

  /** `.loc[lo:]` keeps, in order, exactly the rows whose timestamp is at least `lo`. */
  lemma TailPositionsSpec(times: seq<int>, lo: int)
    ensures var ps := TailPositions(times, lo);
      && AscendingBelow(ps, |times|)
      && (forall j :: 0 <= j < |ps| ==> lo <= times[ps[j]])
      && (forall k: nat :: k < |times| ==> (k in ps <==> lo <= times[k]))
  {
    PositionsSpec(From(times, lo), |times|);
    assert TailPositions(times, lo) == Positions(From(times, lo), |times|);
  }

  /**
   * The mask `cells == v` keeps, in order, exactly the rows holding `v`; a missing `v` keeps
   * no row at all, not even the missing ones.
   */
  lemma MatchPositionsSpec(cells: seq<Cell>, v: Cell)
    ensures var ps := MatchPositions(cells, v);
      && AscendingBelow(ps, |cells|)
      && (forall j :: 0 <= j < |ps| ==> cells[ps[j]] == v != Missing)
      && (forall k: nat :: k < |cells| ==> (k in ps <==> v != Missing && cells[k] == v))
      && (v == Missing ==> ps == [])
  {
    PositionsSpec(Match(cells, v), |cells|);
    assert MatchPositions(cells, v) == Positions(Match(cells, v), |cells|);
    if v == Missing {
      NothingKept(Match(cells, v), |cells|);
    }
  }

  /** The mask `cells == v` selects no row exactly when `v` is missing or absent from the column. */
  lemma MatchPositionsEmpty(cells: seq<Cell>, v: Cell)
    ensures MatchPositions(cells, v) == [] <==> v == Missing || v !in cells
  {
    MatchPositionsSpec(cells, v);
    if v != Missing && v in cells {
      var k :| 0 <= k < |cells| && cells[k] == v;
      assert k in MatchPositions(cells, v);
    }
    var ps := MatchPositions(cells, v);
    if ps != [] {
      assert cells[ps[0]] in cells;
    }
  }

  /** The mask `cells > bound` keeps, in order, exactly the rows holding a number above `bound`. */
  lemma AbovePositionsSpec(cells: seq<Cell>, bound: int)
    ensures var ps := AbovePositions(cells, bound);
      && AscendingBelow(ps, |cells|)
      && (forall j :: 0 <= j < |ps| ==> cells[ps[j]].Num? && cells[ps[j]].v > bound)
      && (forall k: nat :: k < |cells| ==> (k in ps <==> cells[k].Num? && cells[k].v > bound))
  {
    PositionsSpec(Above(cells, bound), |cells|);
    assert AbovePositions(cells, bound) == Positions(Above(cells, bound), |cells|);
  }

  /**
   * `t.loc[lo:hi]` is a well-formed table of the same columns and name tag holding exactly the
   * rows whose timestamp lies in the closed interval [lo, hi].
   */
  lemma SliceWindowExact(t: Table, lo: int, hi: int)
    requires WellFormed(t)
    ensures var r := SliceWindow(t, lo, hi);
      && WellFormed(r)
      && |r.columns| == |t.columns|
      && r.name == t.name
      && (forall x :: x in r.index ==> x in t.index && lo <= x <= hi)
      && (forall k :: 0 <= k < |t.index| && lo <= t.index[k] <= hi ==> t.index[k] in r.index)
  {
    var ps := WindowPositions(t.index, lo, hi);
    WindowPositionsSpec(t.index, lo, hi);
    SelectRowsWellFormed(t, ps);
    var r := SliceWindow(t, lo, hi);
    assert r.index == Pick(t.index, ps);
    forall k | 0 <= k < |t.index| && lo <= t.index[k] <= hi
      ensures t.index[k] in r.index
    {
      var j :| 0 <= j < |ps| && ps[j] == k;
      assert r.index[j] == t.index[k];
    }
  }
}
