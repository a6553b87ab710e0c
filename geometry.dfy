/**
 * `convert_wkt_to_geometry`: parse the well-known-text column of a table into
 * geometries. The geometry type `G` is left abstract and so is the parser: the
 * geometry library is a parameter that either returns a shape or raises.
 */
module Geometry {
  import opened Wrappers

  /** A row that still holds its shape as well-known text; `columns` are all its other columns. */
  datatype WktRow<A> = WktRow(columns: A, wkt: string)

  /** A GeoDataFrame row: the same other columns, the text column gone, a parsed `geometry`. */
  datatype GeoRow<A, G> = GeoRow(columns: A, geometry: G)

  function GeometryOf<A, G>(row: GeoRow<A, G>): G { row.geometry }

  /**
   * The table convert_wkt_to_geometry returns: one GeoRow per input row, in
   * order, with the row's other columns and its parsed shape. Parsing runs row
   * by row and the first malformed text aborts the whole conversion.
   */
  function WktToGeometry<A, G>(rows: seq<WktRow<A>>, parse: string -> Result<G, string>): (r: Result<seq<GeoRow<A, G>>, string>)
    ensures r.Success? <==> forall i :: 0 <= i < |rows| ==> parse(rows[i].wkt).Success?
    ensures r.Success? ==> |r.value| == |rows|
    ensures r.Success? ==> forall i :: 0 <= i < |rows| ==> r.value[i] == GeoRow(rows[i].columns, parse(rows[i].wkt).value)
    ensures r.Failure? ==> exists i :: (0 <= i < |rows| && parse(rows[i].wkt) == Failure(r.error)
      && forall j :: 0 <= j < i ==> parse(rows[j].wkt).Success?)
  {
    if rows == [] then Success([])
    else
      match parse(rows[0].wkt)
      case Failure(e) => Failure(e)
      case Success(g) =>
        match WktToGeometry(rows[1..], parse)
        case Failure(e) =>
          var i :| 0 <= i < |rows[1..]| && parse(rows[1..][i].wkt) == Failure(e)
            && forall j :: 0 <= j < i ==> parse(rows[1..][j].wkt).Success?;
          assert forall j :: 0 <= j < i + 1 ==> parse(rows[j].wkt).Success? by {
            forall j | 0 <= j < i + 1 ensures parse(rows[j].wkt).Success? {
              if j > 0 { assert rows[j] == rows[1..][j - 1]; }
            }
          }
          assert parse(rows[i + 1].wkt) == Failure(e);
          Failure(e)
        case Success(rest) =>
          var out := [GeoRow(rows[0].columns, g)] + rest;
          assert forall i :: 0 <= i < |rows| ==> out[i] == GeoRow(rows[i].columns, parse(rows[i].wkt).value) by {
            forall i | 0 <= i < |rows| ensures out[i] == GeoRow(rows[i].columns, parse(rows[i].wkt).value) {
              if i > 0 { assert rows[i] == rows[1..][i - 1]; }
            }
          }
          Success(out)
  }

  /**
   * A DataFrame passed to convert_wkt_to_geometry. The function writes a
   * "geometry" column into it before returning a new table, so the caller's
   * frame is changed in place; its other columns, the text one included, stay.
   */
  class WktFrame<A, G> {
    var rows: seq<WktRow<A>>
    /** The frame's "geometry" column, once it has been written. */
    var geometry: Option<seq<G>>

    constructor (rows: seq<WktRow<A>>)
      ensures this.rows == rows && geometry == None
    {
      this.rows := rows;
      geometry := None;
    }
  }

  /**
   * `convert_wkt_to_geometry(df, wkt_column)`: `df["geometry"] = df[wkt_column].apply(wkt.loads)`,
   * then the frame without its text column, as a GeoDataFrame. When a text is
   * malformed the exception leaves `df` as it was.
   */
  method ConvertWktToGeometry<A, G>(df: WktFrame<A, G>, parse: string -> Result<G, string>)
    returns (r: Result<seq<GeoRow<A, G>>, string>)
    modifies df
    ensures r == WktToGeometry(old(df.rows), parse)
    ensures df.rows == old(df.rows)
    ensures r.Success? ==> df.geometry == Some(seq(|r.value|, i requires 0 <= i < |r.value| => r.value[i].geometry))
    ensures r.Failure? ==> df.geometry == old(df.geometry)
  {
    var rows := df.rows;
    var shapes: seq<G> := [];
    var i := 0;
    while i < |rows|
      invariant 0 <= i <= |rows|
      invariant |shapes| == i
      invariant forall j :: 0 <= j < i ==> parse(rows[j].wkt) == Success(shapes[j])
    {
      match parse(rows[i].wkt)
      case Failure(e) =>
        var w := WktToGeometry(rows, parse);
        assert w.Failure?;
        ghost var k :| 0 <= k < |rows| && parse(rows[k].wkt) == Failure(w.error)
          && forall j :: 0 <= j < k ==> parse(rows[j].wkt).Success?;
        assert parse(rows[i].wkt).Failure?;
        assert k == i;
        r := Failure(e);
        return;
      case Success(g) =>
        shapes := shapes + [g];
      i := i + 1;
    }
    df.geometry := Some(shapes);
    var out := seq(|rows|, j requires 0 <= j < |rows| => GeoRow(rows[j].columns, shapes[j]));
    var w := WktToGeometry(rows, parse);
    assert w.Success?;
    assert w.value == out;
    assert shapes == seq(|out|, j requires 0 <= j < |out| => out[j].geometry);
    r := Success(out);
  }
}
