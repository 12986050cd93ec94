/** Reading a field from a level map and printing it back
    (`create_level` and `__str__` of `Field` in snakeai/gameplay/entities.py).
    A level map is a list of rows, one character per cell. */
module Levels {
  import opened Errors
  import opened Geometry
  import opened Cells
  import opened Fields

  predicate Known(ch: char) {
    CellOfSymbol(ch).Some?
  }

  /** One row of the comprehension in `create_level`, read left to right:
      the first unknown character aborts it with that character. */
  function ParseRow(line: string): (r: Result<seq<Cell>>)
    ensures r.Success? <==> forall k :: 0 <= k < |line| ==> Known(line[k])
    ensures r.Success? ==>
      |r.value| == |line| && forall k :: 0 <= k < |line| ==> CellOfSymbol(line[k]) == Some(r.value[k])
    ensures r.Failure? ==>
      exists k :: 0 <= k < |line| && r.error == UnknownSymbol(line[k]) && !Known(line[k])
                  && forall j :: 0 <= j < k ==> Known(line[j])
  {
    if line == [] then Success([])
    else match CellOfSymbol(line[0])
      case None => Failure(UnknownSymbol(line[0]))
      case Some(c) =>
        var r := ParseRow(line[1..]);
        if r.Failure? then
          ghost var k :| 0 <= k < |line[1..]| && r.error == UnknownSymbol(line[1..][k]) && !Known(line[1..][k])
                         && forall j :: 0 <= j < k ==> Known(line[1..][j]);
          assert r.error == UnknownSymbol(line[k + 1]);
          Failure(r.error)
        else
          Success([c] + r.value)
  }

  /** All rows, top to bottom: the first row holding an unknown character
      decides the failure. */
  function ParseRows(level: seq<string>): (r: Result<seq<seq<Cell>>>)
    ensures r.Success? <==> forall y :: 0 <= y < |level| ==> ParseRow(level[y]).Success?
    ensures r.Success? ==>
      |r.value| == |level| && forall y :: 0 <= y < |level| ==> r.value[y] == ParseRow(level[y]).value
    ensures r.Failure? ==>
      exists y :: 0 <= y < |level| && ParseRow(level[y]) == Failure(r.error)
                  && forall j :: 0 <= j < y ==> ParseRow(level[j]).Success?
  {
    if level == [] then Success([])
    else
      var row :- ParseRow(level[0]);
      var r := ParseRows(level[1..]);
      if r.Failure? then
        ghost var y :| 0 <= y < |level[1..]| && ParseRow(level[1..][y]) == Failure(r.error)
                       && forall j :: 0 <= j < y ==> ParseRow(level[1..][j]).Success?;
        assert ParseRow(level[y + 1]) == Failure(r.error);
        Failure(r.error)
      else
        Success([row] + r.value)
  }

  /** The coordinates of the EMPTY cells of a square grid. */
  function EmptyCells(cells: seq<seq<Cell>>): set<Point> {
    set y, x | 0 <= y < |cells| && 0 <= x < |cells[y]| && cells[y][x] == Empty :: Point(x, y)
  }

  predicate SquareMap(level: seq<string>) {
    forall y :: 0 <= y < |level| ==> |level[y]| == |level|
  }

  /** `create_level`: fails, naming the first unknown symbol in row-major
      order, exactly when the map holds a character outside `A B s x # O .`;
      otherwise every cell holds the type its symbol denotes and the
      empty-cell set is exactly the set of EMPTY cells. */
  function CreateLevel(level: seq<string>): (r: Result<Field>)
    requires SquareMap(level)
    ensures r.Success? <==> forall y, x :: 0 <= y < |level| && 0 <= x < |level[y]| ==> Known(level[y][x])
    ensures r.Success? ==>
      && EmptyInv(r.value) && |r.value.cells| == |level|
      && forall p :: InBounds(r.value, p) ==> CellOfSymbol(level[p.y][p.x]) == Some(Get(r.value, p))
    ensures r.Failure? ==> FirstUnknown(level, r.error)
  {
    match ParseRows(level)
    case Failure(e) =>
      FailureNamesFirstUnknown(level);
      Failure(e)
    case Success(cells) =>
      var f := Field(cells, EmptyCells(cells));
      EmptyCellsExact(f);
      Success(f)
  }

  /** The error names a character outside the table, and every character
      before it in row-major order is inside the table. */
  ghost predicate FirstUnknown(level: seq<string>, e: Error) {
    exists y, x :: 0 <= y < |level| && 0 <= x < |level[y]|
                   && e == UnknownSymbol(level[y][x]) && !Known(level[y][x])
                   && forall p :: Before(p, Point(x, y)) && 0 <= p.y < |level| && 0 <= p.x < |level[p.y]|
                                  ==> Known(level[p.y][p.x])
  }

  lemma FailureNamesFirstUnknown(level: seq<string>)
    requires ParseRows(level).Failure?
    ensures FirstUnknown(level, ParseRows(level).error)
  {
    var e := ParseRows(level).error;
    var y :| 0 <= y < |level| && ParseRow(level[y]) == Failure(e)
             && forall j :: 0 <= j < y ==> ParseRow(level[j]).Success?;
    var x :| 0 <= x < |level[y]| && e == UnknownSymbol(level[y][x]) && !Known(level[y][x])
             && forall j :: 0 <= j < x ==> Known(level[y][j]);
    assert forall p :: Before(p, Point(x, y)) && 0 <= p.y < |level| && 0 <= p.x < |level[p.y]|
                       ==> Known(level[p.y][p.x]);
  }

  lemma EmptyCellsExact(f: Field)
    requires Square(f) && f.empty == EmptyCells(f.cells)
    ensures EmptyInv(f)
  {
    forall p ensures p in f.empty <==> InBounds(f, p) && Get(f, p) == Empty {
      if InBounds(f, p) && Get(f, p) == Empty {
        assert f.cells[p.y][p.x] == Empty;
      }
    }
  }

  /** One printed row: the symbol of each cell. */
  function RowText(row: seq<Cell>): string {
    seq(|row|, x requires 0 <= x < |row| => SymbolOf(row[x]))
  }

  /** The printed rows of a field, top to bottom. */
  function Rows(f: Field): seq<string> {
    seq(|f.cells|, y requires 0 <= y < |f.cells| => RowText(f.cells[y]))
  }

  /** Python's `'\n'.join(rows)`. */
  function JoinLines(rows: seq<string>): string {
    if |rows| == 0 then ""
    else if |rows| == 1 then rows[0]
    else rows[0] + "\n" + JoinLines(rows[1..])
  }

  /** `__str__`. */
  function Render(f: Field): string {
    JoinLines(Rows(f))
  }

  /** Printing a freshly created level gives back its rows joined by
      newlines: the symbol table is injective. */
  lemma RenderAfterCreate(level: seq<string>)
    requires SquareMap(level) && CreateLevel(level).Success?
    ensures Rows(CreateLevel(level).value) == level
    ensures Render(CreateLevel(level).value) == JoinLines(level)
  {
    var f := CreateLevel(level).value;
    forall y | 0 <= y < |level|
      ensures RowText(f.cells[y]) == level[y]
    {
      forall x | 0 <= x < |level[y]|
        ensures SymbolOf(f.cells[y][x]) == level[y][x]
      {
        assert CellOfSymbol(level[y][x]) == Some(Get(f, Point(x, y)));
        SymbolRoundTrip(level[y][x]);
      }
    }
  }

  /** Creating a level from the printed rows of a field gives the same
      field back, empty-cell set included. */
  lemma CreateAfterRender(f: Field)
    requires EmptyInv(f)
    ensures SquareMap(Rows(f))
    ensures CreateLevel(Rows(f)) == Success(f)
  {
    var level := Rows(f);
    assert SquareMap(level);
    assert forall y, x :: 0 <= y < |level| && 0 <= x < |level[y]| ==> CellOfSymbol(level[y][x]) == Some(Get(f, Point(x, y)));
    var g := CreateLevel(level).value;
    assert g.cells == f.cells by {
      forall y | 0 <= y < |f.cells|
        ensures g.cells[y] == f.cells[y]
      {
        forall x | 0 <= x < |f.cells|
          ensures g.cells[y][x] == f.cells[y][x]
        {
          assert CellOfSymbol(level[y][x]) == Some(Get(g, Point(x, y)));
        }
      }
    }
    assert g.empty == f.empty by {
      forall p ensures p in g.empty <==> p in f.empty {
        if InBounds(f, p) {
          assert Get(g, p) == Get(f, p);
        }
      }
    }
  }
}
