/** One column written cell by cell, carried over a format, and built again. */
module ColumnRoundTrip {
  import opened Base
  import opened Values
  import opened Columns
  import opened ValueIn
  import opened ValueOut
  import opened RoundTrip

  /** Reading every row of a column, carrying the values over CBOR or MessagePack and building the column again gives
      the same logical cells, nulls at every level included (TIME_NS in whole microseconds). It is refused exactly when
      MessagePack cannot carry a decimal in it. */
  method ColumnThereAndBack(pf: Platform, route: Route, ty: Type, col: Column) returns (r: Outcome<Column>)
    requires ColumnOf(ty, col) && WellFormed(ty)
    ensures r.Ok? <==> forall c | c in Cells(col) :: !Uncarried(route, ty, c)
    ensures r.Ok? ==> ColumnOf(ty, r.value) && Cells(r.value) == KeptAll(pf, ty, Cells(col))
  {
    hide *;
    ColumnLaid(ty, col);
    ColumnTyped(ty, col);
    ghost var cells := Cells(col);
    var values: seq<Cbor> := [];
    for row := 0 to Len(col)
      invariant |values| == row
      invariant forall j | 0 <= j < row :: values[j] == Carry(pf, route, WriteCell(pf, ty, cells[j]))
    {
      var v := ValueAt(pf, ty, col, row);
      values := values + [Carry(pf, route, v)];
    }
    ValuesCarried(pf, route, ty, cells, values);
    AllRoundTrip(pf, route, ty, cells);
    r := BuildColumn(pf, ty, values);
  }

  lemma ValuesCarried(pf: Platform, route: Route, ty: Type, cells: seq<Cell>, values: seq<Cbor>)
    requires |values| == |cells|
    requires forall j | 0 <= j < |cells| :: values[j] == Carry(pf, route, WriteCell(pf, ty, cells[j]))
    ensures values == CarryAll(pf, route, WriteAll(pf, ty, cells))
  {
    hide Carry, WriteCell;
  }
}
