/**
 * `load_air_data`: the three 2023 air-quality files (NO2, PM2.5, PM10), each a
 * table of road segments (`TRAM`) with a concentration band (`Rang`) and a WKT
 * shape, become one table of the segments present in all three, with one
 * ordered band column per pollutant.
 */
module AirQuality {
  import opened Wrappers
  import opened Tables
  import opened Geometry

  /** The columns of a pollutant file besides its shape: the segment id and its band. */
  datatype Segment = Segment(tram: string, band: string)

  /** The dtype of a pandas categorical column: its categories in order, and whether that order is meaningful. */
  datatype Categorical = Categorical(categories: seq<string>, ordered: bool)

  /** A row of the merged table: `TRAM`, the NO2 file's geometry, and the band of each pollutant merged so far. */
  datatype AirRow<G> = AirRow(tram: string, geometry: G, bands: seq<string>)

  /** The result of load_air_data: its rows and the dtypes of its NO2, PM2_5 and PM10 columns. */
  datatype AirTable<G> = AirTable(rows: seq<AirRow<G>>, columns: seq<Categorical>)

  /** The bands of each pollutant, lowest concentration first. */
  const NO2Bands: seq<string> := ["10-20 µg/m³", "20-30 µg/m³", "30-40 µg/m³", "40-50 µg/m³", "50-60 µg/m³", "60-70 µg/m³", ">70 µg/m³"]
  const PM25Bands: seq<string> := ["5-10 µg/m³", "10-15 µg/m³", "15-20 µg/m³", "20-25 µg/m³", "25-30 µg/m³"]
  const PM10Bands: seq<string> := ["<=15 µg/m³", "15-20 µg/m³", "20-25 µg/m³", "25-30 µg/m³", "30-35 µg/m³", "35-40 µg/m³", "> 40 µg/m³"]

  function CsvBand(r: WktRow<Segment>): string { r.columns.band }
  function CsvTram(r: WktRow<Segment>): string { r.columns.tram }
  function GeoTram<G>(r: GeoRow<Segment, G>): string { r.columns.tram }
  function RowTram<G>(r: AirRow<G>): string { r.tram }

  ghost predicate Distinct(s: seq<string>)
  {
    forall i, j :: 0 <= i < j < |s| ==> s[i] != s[j]
  }

  /** `.astype({col: "category"})`: an unordered categorical over the column's distinct values. */
  function AsCategory(rows: seq<WktRow<Segment>>): (c: Categorical)
    ensures !c.ordered && Distinct(c.categories)
    ensures forall b :: b in c.categories <==> HasKey(rows, CsvBand, b)
  {
    Categorical(KeysOf(rows, CsvBand), false)
  }

  /**
   * `.cat.reorder_categories(newCategories, ordered=True)`: pandas accepts the
   * new list only when it has as many items as the old categories and holds
   * each of them; otherwise it raises ValueError.
   */
  function ReorderCategories(c: Categorical, newCategories: seq<string>): (r: Result<Categorical, string>)
    ensures r.Success? ==> r.value.categories == newCategories && r.value.ordered
  {
    if |newCategories| == |c.categories| && forall x :: x in c.categories ==> x in newCategories then
      Success(Categorical(newCategories, true))
    else
      Failure("items in new_categories are not the same as in old categories")
  }

  lemma {:induction false} DistinctCard(s: seq<string>)
    requires Distinct(s)
    ensures |set x | x in s| == |s|
  {
    if s != [] {
      DistinctCard(s[1..]);
      assert (set x | x in s) == {s[0]} + (set x | x in s[1..]);
      assert s[0] !in (set x | x in s[1..]) by {
        forall i | 0 <= i < |s[1..]| ensures s[1..][i] != s[0] {
          assert s[1..][i] == s[i + 1];
        }
      }
    }
  }

  /** Between two lists without repeats, the reorder succeeds exactly when they hold the same bands. */
  lemma ReorderIffSameBands(c: Categorical, newCategories: seq<string>)
    requires Distinct(c.categories) && Distinct(newCategories)
    ensures ReorderCategories(c, newCategories).Success? <==> forall x :: x in c.categories <==> x in newCategories
  {
    var a := set x | x in c.categories;
    var b := set x | x in newCategories;
    DistinctCard(c.categories);
    DistinctCard(newCategories);
    if |newCategories| == |c.categories| && forall x :: x in c.categories ==> x in newCategories {
      assert a <= b;
      assert |b - a| == |b| - |a|;
      assert b - a == {};
      assert a == b;
      forall x ensures x in c.categories <==> x in newCategories {
        assert x in c.categories <==> x in a;
        assert x in newCategories <==> x in b;
      }
    }
    if forall x :: x in c.categories <==> x in newCategories {
      assert forall x :: x in a <==> x in b;
      assert a == b;
      assert |newCategories| == |c.categories|;
      assert forall x :: x in c.categories ==> x in newCategories;
      assert ReorderCategories(c, newCategories).Success?;
    }
  }

  lemma BandListsDistinct()
    ensures Distinct(NO2Bands) && Distinct(PM25Bands) && Distinct(PM10Bands)
  {
  }

  /** `gdfs[0][["TRAM", "geometry"]]`: the segments and shapes of the NO2 file, no band yet. */
  function Base<G>(no2: seq<GeoRow<Segment, G>>): (b: seq<AirRow<G>>)
  {
    seq(|no2|, i requires 0 <= i < |no2| => AirRow(no2[i].columns.tram, no2[i].geometry, []))
  }

  function Extend<G>(p: (AirRow<G>, GeoRow<Segment, G>)): AirRow<G>
  {
    AirRow(p.0.tram, p.0.geometry, p.0.bands + [p.1.columns.band])
  }

  /** `gdf.merge(temp_gdf.drop(columns=["geometry"]), on="TRAM")`: an inner merge adding one band column. */
  function MergeTram<G>(gdf: seq<AirRow<G>>, t: seq<GeoRow<Segment, G>>): seq<AirRow<G>>
  {
    var j := InnerJoin(gdf, RowTram, t, GeoTram);
    seq(|j|, i requires 0 <= i < |j| => Extend(j[i]))
  }

  /** The table after merging each of `ts` in turn onto `base`. */
  function MergeAll<G>(base: seq<AirRow<G>>, ts: seq<seq<GeoRow<Segment, G>>>): seq<AirRow<G>>
  {
    if ts == [] then base else MergeTram(MergeAll(base, ts[..|ts| - 1]), ts[|ts| - 1])
  }

  /** `[convert_wkt_to_geometry(gdf, "GEOM_WKT") for gdf in gdfs]`: the first malformed shape aborts. */
  function ConvertAll<G>(csvs: seq<seq<WktRow<Segment>>>, parse: string -> Result<G, string>): (r: Result<seq<seq<GeoRow<Segment, G>>>, string>)
    ensures r.Success? <==> forall p :: 0 <= p < |csvs| ==> WktToGeometry(csvs[p], parse).Success?
    ensures r.Success? ==> |r.value| == |csvs| && forall p :: 0 <= p < |csvs| ==> r.value[p] == WktToGeometry(csvs[p], parse).value
  {
    if csvs == [] then Success([])
    else
      var init := csvs[..|csvs| - 1];
      match ConvertAll(init, parse)
      case Failure(e) => Failure(e)
      case Success(gs) =>
        match WktToGeometry(csvs[|csvs| - 1], parse)
        case Failure(e) => Failure(e)
        case Success(g) => Success(gs + [g])
  }

  lemma {:induction false} ConvertAllFailsEarly<G>(csvs: seq<seq<WktRow<Segment>>>, k: nat, parse: string -> Result<G, string>)
    requires k <= |csvs| && ConvertAll(csvs[..k], parse).Failure?
    ensures ConvertAll(csvs, parse) == ConvertAll(csvs[..k], parse)
    decreases |csvs|
  {
    if k < |csvs| {
      var init := csvs[..|csvs| - 1];
      assert init[..k] == csvs[..k];
      ConvertAllFailsEarly(init, k, parse);
    } else {
      assert csvs[..k] == csvs;
    }
  }

  /** `.set_crs(epsg=25831).to_crs(epsg=4326)`: every shape reprojected, nothing else changed. */
  function Reproject<G>(rows: seq<AirRow<G>>, toWgs84: G -> G): seq<AirRow<G>>
  {
    seq(|rows|, i requires 0 <= i < |rows| => rows[i].(geometry := toWgs84(rows[i].geometry)))
  }

  /** What load_air_data computes from the contents of the three files. */
  function AirQuality<G>(no2: seq<WktRow<Segment>>, pm25: seq<WktRow<Segment>>, pm10: seq<WktRow<Segment>>,
                         parse: string -> Result<G, string>, toWgs84: G -> G): Result<AirTable<G>, string>
  {
    match ConvertAll([no2, pm25, pm10], parse)
    case Failure(e) => Failure(e)
    case Success(gdfs) =>
      var merged := MergeAll(Base(gdfs[0]), gdfs);
      var c0 := ReorderCategories(AsCategory(no2), NO2Bands);
      var c1 := ReorderCategories(AsCategory(pm25), PM25Bands);
      var c2 := ReorderCategories(AsCategory(pm10), PM10Bands);
      if c0.Failure? then Failure(c0.error)
      else if c1.Failure? then Failure(c1.error)
      else if c2.Failure? then Failure(c2.error)
      else Success(AirTable(Reproject(merged, toWgs84), [c0.value, c1.value, c2.value]))
  }

  /** Each file's table with its shapes converted, in file order; the first malformed shape aborts. */
  method ConvertFiles<G>(csvs: seq<seq<WktRow<Segment>>>, parse: string -> Result<G, string>)
    returns (r: Result<seq<seq<GeoRow<Segment, G>>>, string>)
    ensures r == ConvertAll(csvs, parse)
  {
    var gdfs: seq<seq<GeoRow<Segment, G>>> := [];
    for i := 0 to |csvs|
      invariant ConvertAll(csvs[..i], parse) == Success(gdfs)
    {
      var frame := new WktFrame<Segment, G>(csvs[i]);
      var g := ConvertWktToGeometry(frame, parse);
      assert csvs[..i + 1][..i] == csvs[..i];
      if g.Failure? {
        ConvertAllFailsEarly(csvs, i + 1, parse);
        return Failure(g.error);
      }
      gdfs := gdfs + [g.value];
    }
    assert csvs[..|csvs|] == csvs;
    r := Success(gdfs);
  }

  /** The merge loop: each table's bands inner-merged on `TRAM` onto the running table. */
  method MergeFiles<G>(base: seq<AirRow<G>>, gdfs: seq<seq<GeoRow<Segment, G>>>) returns (gdf: seq<AirRow<G>>)
    ensures gdf == MergeAll(base, gdfs)
  {
    gdf := base;
    for i := 0 to |gdfs|
      invariant gdf == MergeAll(base, gdfs[..i])
    {
      assert gdfs[..i + 1][..i] == gdfs[..i];
      gdf := MergeTram(gdf, gdfs[i]);
    }
    assert gdfs[..|gdfs|] == gdfs;
  }

  /**
   * `load_air_data()`, given the three files' rows: convert each file's shapes,
   * fold the inner merges on `TRAM` over the three tables (the NO2 table
   * included), fix each band column's category order, and reproject.
   */
  method LoadAirData<G>(no2: seq<WktRow<Segment>>, pm25: seq<WktRow<Segment>>, pm10: seq<WktRow<Segment>>,
                        parse: string -> Result<G, string>, toWgs84: G -> G)
    returns (r: Result<AirTable<G>, string>)
    ensures r == AirQuality(no2, pm25, pm10, parse, toWgs84)
  {
    var converted := ConvertFiles([no2, pm25, pm10], parse);
    if converted.Failure? {
      return Failure(converted.error);
    }
    var gdfs := converted.value;
    var gdf := MergeFiles(Base(gdfs[0]), gdfs);
    var c0 := ReorderCategories(AsCategory(no2), NO2Bands);
    if c0.Failure? { return Failure(c0.error); }
    var c1 := ReorderCategories(AsCategory(pm25), PM25Bands);
    if c1.Failure? { return Failure(c1.error); }
    var c2 := ReorderCategories(AsCategory(pm10), PM10Bands);
    if c2.Failure? { return Failure(c2.error); }
    r := Success(AirTable(Reproject(gdf, toWgs84), [c0.value, c1.value, c2.value]));
  }

  // ---- What the merge fold keeps ----

  ghost predicate HasSegment<G>(t: seq<GeoRow<Segment, G>>, tram: string, band: string)
  {
    exists i :: 0 <= i < |t| && t[i].columns == Segment(tram, band)
  }

  /** Row `x` has one band per merged table, each read from a row of that table with the same segment. */
  ghost predicate Carries<G>(x: AirRow<G>, ts: seq<seq<GeoRow<Segment, G>>>)
  {
    |x.bands| == |ts| && forall p :: 0 <= p < |ts| ==> HasSegment(ts[p], x.tram, x.bands[p])
  }

  /** Row `x` keeps the segment and shape of a row of `base`. */
  ghost predicate FromBase<G>(x: AirRow<G>, base: seq<AirRow<G>>)
  {
    exists b :: 0 <= b < |base| && base[b].tram == x.tram && base[b].geometry == x.geometry
  }

  /** Row `x` extends row `a` of `gdf` with the band of row `b` of `t`, both of the same segment. */
  ghost predicate ExtendsPair<G>(x: AirRow<G>, gdf: seq<AirRow<G>>, t: seq<GeoRow<Segment, G>>, a: int, b: int)
  {
    0 <= a < |gdf| && 0 <= b < |t| && gdf[a].tram == t[b].columns.tram && x == Extend((gdf[a], t[b]))
  }

  /** Row `x` is a row of `gdf` extended with the band of a row of `t` of the same segment. */
  ghost predicate Paired<G>(x: AirRow<G>, gdf: seq<AirRow<G>>, t: seq<GeoRow<Segment, G>>)
  {
    exists a, b :: ExtendsPair(x, gdf, t, a, b)
  }

  lemma MergeTramRows<G>(gdf: seq<AirRow<G>>, t: seq<GeoRow<Segment, G>>)
    ensures forall i :: 0 <= i < |MergeTram(gdf, t)| ==> Paired(MergeTram(gdf, t)[i], gdf, t)
  {
    var j := InnerJoin(gdf, RowTram, t, GeoTram);
    var m := MergeTram(gdf, t);
    forall i | 0 <= i < |m| ensures Paired(m[i], gdf, t) {
      assert m[i] == Extend(j[i]);
      var a :| 0 <= a < |gdf| && gdf[a] == j[i].0;
      var b :| 0 <= b < |t| && t[b] == j[i].1;
      assert ExtendsPair(m[i], gdf, t, a, b);
    }
  }

  /** A segment the merge keeps is on both sides. */
  lemma MergeTramKeyFrom<G>(gdf: seq<AirRow<G>>, t: seq<GeoRow<Segment, G>>, k: string)
    requires HasKey(MergeTram(gdf, t), RowTram, k)
    ensures HasKey(gdf, RowTram, k) && HasKey(t, GeoTram, k)
  {
    var m := MergeTram(gdf, t);
    var j := InnerJoin(gdf, RowTram, t, GeoTram);
    var i :| 0 <= i < |m| && RowTram(m[i]) == k;
    var a :| 0 <= a < |gdf| && gdf[a] == j[i].0;
    var b :| 0 <= b < |t| && t[b] == j[i].1;
    assert RowTram(gdf[a]) == k && GeoTram(t[b]) == k;
  }

  /** A segment on both sides is kept by the merge. */
  lemma MergeTramKeyTo<G>(gdf: seq<AirRow<G>>, t: seq<GeoRow<Segment, G>>, k: string)
    requires HasKey(gdf, RowTram, k) && HasKey(t, GeoTram, k)
    ensures HasKey(MergeTram(gdf, t), RowTram, k)
  {
    var m := MergeTram(gdf, t);
    var j := InnerJoin(gdf, RowTram, t, GeoTram);
    var a :| 0 <= a < |gdf| && RowTram(gdf[a]) == k;
    var b :| 0 <= b < |t| && GeoTram(t[b]) == k;
    assert (gdf[a], t[b]) in j;
    var i :| 0 <= i < |j| && j[i] == (gdf[a], t[b]);
    assert m[i] == Extend(j[i]);
  }

  lemma MergeTramKeys<G>(gdf: seq<AirRow<G>>, t: seq<GeoRow<Segment, G>>)
    ensures forall k :: HasKey(MergeTram(gdf, t), RowTram, k) <==> HasKey(gdf, RowTram, k) && HasKey(t, GeoTram, k)
  {
    forall k ensures HasKey(MergeTram(gdf, t), RowTram, k) <==> HasKey(gdf, RowTram, k) && HasKey(t, GeoTram, k) {
      if HasKey(MergeTram(gdf, t), RowTram, k) {
        MergeTramKeyFrom(gdf, t, k);
      }
      if HasKey(gdf, RowTram, k) && HasKey(t, GeoTram, k) {
        MergeTramKeyTo(gdf, t, k);
      }
    }
  }

  lemma MergeTramUnique<G>(gdf: seq<AirRow<G>>, t: seq<GeoRow<Segment, G>>)
    requires UniqueKeys(gdf, RowTram) && UniqueKeys(t, GeoTram)
    ensures UniqueKeys(MergeTram(gdf, t), RowTram)
  {
    InnerJoinUnique(gdf, RowTram, t, GeoTram);
    SemijoinUnique(gdf, RowTram, t, GeoTram);
    var m := MergeTram(gdf, t);
    var sj := Semijoin(gdf, RowTram, t, GeoTram);
    forall i, j | 0 <= i < j < |m| ensures RowTram(m[i]) != RowTram(m[j]) {
      assert RowTram(m[i]) == RowTram(sj[i]) && RowTram(m[j]) == RowTram(sj[j]);
    }
  }

  lemma {:induction false} MergeAllRows<G>(base: seq<AirRow<G>>, ts: seq<seq<GeoRow<Segment, G>>>)
    requires forall b :: 0 <= b < |base| ==> base[b].bands == []
    ensures forall i :: 0 <= i < |MergeAll(base, ts)| ==> Carries(MergeAll(base, ts)[i], ts) && FromBase(MergeAll(base, ts)[i], base)
  {
    if ts != [] {
      var init := ts[..|ts| - 1];
      var t := ts[|ts| - 1];
      var prev := MergeAll(base, init);
      MergeAllRows(base, init);
      MergeTramRows(prev, t);
      var m := MergeAll(base, ts);
      forall i | 0 <= i < |m| ensures Carries(m[i], ts) && FromBase(m[i], base) {
        assert Paired(m[i], prev, t);
        var a, b :| ExtendsPair(m[i], prev, t, a, b);
        assert Carries(prev[a], init) && FromBase(prev[a], base);
        forall p | 0 <= p < |ts| ensures HasSegment(ts[p], m[i].tram, m[i].bands[p]) {
          if p < |ts| - 1 {
            assert init[p] == ts[p] && m[i].bands[p] == prev[a].bands[p];
          } else {
            assert t[b].columns == Segment(m[i].tram, m[i].bands[p]);
          }
        }
      }
    }
  }

  /** Segment `k` appears in every table of `ts`. */
  ghost predicate InAll<G>(ts: seq<seq<GeoRow<Segment, G>>>, k: string)
  {
    forall p :: 0 <= p < |ts| ==> HasKey(ts[p], GeoTram, k)
  }

  lemma InAllSnoc<G>(ts: seq<seq<GeoRow<Segment, G>>>, k: string)
    requires ts != []
    ensures InAll(ts, k) <==> InAll(ts[..|ts| - 1], k) && HasKey(ts[|ts| - 1], GeoTram, k)
  {
    var init := ts[..|ts| - 1];
    assert forall p :: 0 <= p < |init| ==> init[p] == ts[p];
  }

  lemma {:induction false} MergeAllKey<G>(base: seq<AirRow<G>>, ts: seq<seq<GeoRow<Segment, G>>>, k: string)
    ensures HasKey(MergeAll(base, ts), RowTram, k) <==> HasKey(base, RowTram, k) && InAll(ts, k)
  {
    if ts != [] {
      var init := ts[..|ts| - 1];
      MergeAllKey(base, init, k);
      MergeTramKeys(MergeAll(base, init), ts[|ts| - 1]);
      InAllSnoc(ts, k);
    }
  }

  lemma {:induction false} MergeAllUnique<G>(base: seq<AirRow<G>>, ts: seq<seq<GeoRow<Segment, G>>>)
    requires UniqueKeys(base, RowTram)
    requires forall p :: 0 <= p < |ts| ==> UniqueKeys(ts[p], GeoTram)
    ensures UniqueKeys(MergeAll(base, ts), RowTram)
  {
    if ts != [] {
      var init := ts[..|ts| - 1];
      assert forall p :: 0 <= p < |init| ==> init[p] == ts[p];
      MergeAllUnique(base, init);
      MergeTramUnique(MergeAll(base, init), ts[|ts| - 1]);
    }
  }

  // ---- What load_air_data promises ----

  /** Every shape of the file parses. */
  ghost predicate AllParse<G>(rows: seq<WktRow<Segment>>, parse: string -> Result<G, string>)
  {
    forall i :: 0 <= i < |rows| ==> parse(rows[i].wkt).Success?
  }

  /** The file's `Rang` values are exactly the bands of the list. */
  ghost predicate SameBands(rows: seq<WktRow<Segment>>, bands: seq<string>)
  {
    forall b :: HasKey(rows, CsvBand, b) <==> b in bands
  }

  ghost predicate CsvHas(rows: seq<WktRow<Segment>>, tram: string, band: string)
  {
    exists i :: 0 <= i < |rows| && rows[i].columns == Segment(tram, band)
  }

  /** Row `x`'s shape is the reprojected shape of a NO2 row of its segment. */
  ghost predicate ShapeFrom<G>(x: AirRow<G>, no2: seq<WktRow<Segment>>, parse: string -> Result<G, string>, toWgs84: G -> G)
  {
    exists j :: 0 <= j < |no2| && no2[j].columns.tram == x.tram && parse(no2[j].wkt).Success?
      && x.geometry == toWgs84(parse(no2[j].wkt).value)
  }

  lemma ConvertedRows<G>(csv: seq<WktRow<Segment>>, parse: string -> Result<G, string>)
    requires WktToGeometry(csv, parse).Success?
    ensures forall tram, band :: HasSegment(WktToGeometry(csv, parse).value, tram, band) <==> CsvHas(csv, tram, band)
    ensures UniqueKeys(csv, CsvTram) ==> UniqueKeys(WktToGeometry(csv, parse).value, GeoTram)
  {
    var g := WktToGeometry(csv, parse).value;
    assert forall i :: 0 <= i < |g| ==> g[i].columns == csv[i].columns;
    forall tram, band ensures HasSegment(g, tram, band) <==> CsvHas(csv, tram, band) {
      if CsvHas(csv, tram, band) {
        var i :| 0 <= i < |csv| && csv[i].columns == Segment(tram, band);
        assert g[i].columns == Segment(tram, band);
      }
    }
  }

  lemma ConvertedKey<G>(csv: seq<WktRow<Segment>>, parse: string -> Result<G, string>, k: string)
    requires WktToGeometry(csv, parse).Success?
    ensures HasKey(WktToGeometry(csv, parse).value, GeoTram, k) <==> HasKey(csv, CsvTram, k)
  {
    var g := WktToGeometry(csv, parse).value;
    if HasKey(csv, CsvTram, k) {
      var i :| 0 <= i < |csv| && CsvTram(csv[i]) == k;
      assert GeoTram(g[i]) == k;
    }
    if HasKey(g, GeoTram, k) {
      var i :| 0 <= i < |g| && GeoTram(g[i]) == k;
      assert CsvTram(csv[i]) == k;
    }
  }

  lemma BaseRows<G>(g: seq<GeoRow<Segment, G>>)
    ensures forall b :: 0 <= b < |Base(g)| ==> Base(g)[b].bands == []
    ensures UniqueKeys(g, GeoTram) ==> UniqueKeys(Base(g), RowTram)
  {
  }

  lemma BaseKey<G>(g: seq<GeoRow<Segment, G>>, k: string)
    ensures HasKey(Base(g), RowTram, k) <==> HasKey(g, GeoTram, k)
  {
    if HasKey(g, GeoTram, k) {
      var i :| 0 <= i < |g| && GeoTram(g[i]) == k;
      assert RowTram(Base(g)[i]) == k;
    }
  }

  lemma ReprojectUnique<G>(rows: seq<AirRow<G>>, toWgs84: G -> G)
    requires UniqueKeys(rows, RowTram)
    ensures UniqueKeys(Reproject(rows, toWgs84), RowTram)
  {
  }

  lemma ReprojectKey<G>(rows: seq<AirRow<G>>, toWgs84: G -> G, k: string)
    ensures HasKey(Reproject(rows, toWgs84), RowTram, k) <==> HasKey(rows, RowTram, k)
  {
    var r := Reproject(rows, toWgs84);
    if HasKey(rows, RowTram, k) {
      var i :| 0 <= i < |rows| && RowTram(rows[i]) == k;
      assert RowTram(r[i]) == k;
    }
  }

  /**
   * load_air_data succeeds exactly when every shape of the three files parses
   * and each file's bands are exactly its hard-coded list; the three band
   * columns then come out ordered, in the hard-coded order.
   */
  lemma AirQualitySucceeds<G>(no2: seq<WktRow<Segment>>, pm25: seq<WktRow<Segment>>, pm10: seq<WktRow<Segment>>,
                              parse: string -> Result<G, string>, toWgs84: G -> G)
    ensures AirQuality(no2, pm25, pm10, parse, toWgs84).Success? <==>
      AllParse(no2, parse) && AllParse(pm25, parse) && AllParse(pm10, parse)
      && SameBands(no2, NO2Bands) && SameBands(pm25, PM25Bands) && SameBands(pm10, PM10Bands)
    ensures AirQuality(no2, pm25, pm10, parse, toWgs84).Success? ==>
      AirQuality(no2, pm25, pm10, parse, toWgs84).value.columns
        == [Categorical(NO2Bands, true), Categorical(PM25Bands, true), Categorical(PM10Bands, true)]
  {
    var csvs := [no2, pm25, pm10];
    assert ConvertAll(csvs, parse).Success? <==> AllParse(no2, parse) && AllParse(pm25, parse) && AllParse(pm10, parse) by {
      assert csvs[0] == no2 && csvs[1] == pm25 && csvs[2] == pm10;
    }
    BandListsDistinct();
    ReorderIffSameBands(AsCategory(no2), NO2Bands);
    ReorderIffSameBands(AsCategory(pm25), PM25Bands);
    ReorderIffSameBands(AsCategory(pm10), PM10Bands);
  }

  /** Row `x` of the three-table merge: a band read from each table for its segment, and the reprojected shape of a row of the first. */
  ghost predicate MergedRowOf<G>(x: AirRow<G>, g0: seq<GeoRow<Segment, G>>, g1: seq<GeoRow<Segment, G>>, g2: seq<GeoRow<Segment, G>>, toWgs84: G -> G)
  {
    |x.bands| == 3 && HasSegment(g0, x.tram, x.bands[0]) && HasSegment(g1, x.tram, x.bands[1]) && HasSegment(g2, x.tram, x.bands[2])
    && exists b :: 0 <= b < |g0| && g0[b].columns.tram == x.tram && x.geometry == toWgs84(g0[b].geometry)
  }

  lemma MergedRows<G>(g0: seq<GeoRow<Segment, G>>, g1: seq<GeoRow<Segment, G>>, g2: seq<GeoRow<Segment, G>>, toWgs84: G -> G)
    ensures var rows := Reproject(MergeAll(Base(g0), [g0, g1, g2]), toWgs84);
      forall i :: 0 <= i < |rows| ==> MergedRowOf(rows[i], g0, g1, g2, toWgs84)
  {
    var gdfs := [g0, g1, g2];
    var base := Base(g0);
    var merged := MergeAll(base, gdfs);
    var rows := Reproject(merged, toWgs84);
    BaseRows(g0);
    MergeAllRows(base, gdfs);
    forall i | 0 <= i < |rows| ensures MergedRowOf(rows[i], g0, g1, g2, toWgs84) {
      var x := merged[i];
      assert rows[i] == x.(geometry := toWgs84(x.geometry));
      assert Carries(x, gdfs) && FromBase(x, base);
      assert HasSegment(gdfs[0], x.tram, x.bands[0]) && HasSegment(gdfs[1], x.tram, x.bands[1]) && HasSegment(gdfs[2], x.tram, x.bands[2]);
      var b :| 0 <= b < |base| && base[b].tram == x.tram && base[b].geometry == x.geometry;
      assert g0[b].columns.tram == x.tram && x.geometry == g0[b].geometry;
    }
  }

  /** A band read from a converted file is a band of a row of the file, so it lies in the file's list. */
  lemma ConvertedBand<G>(csv: seq<WktRow<Segment>>, parse: string -> Result<G, string>, bands: seq<string>, tram: string, band: string)
    requires WktToGeometry(csv, parse).Success? && SameBands(csv, bands)
    requires HasSegment(WktToGeometry(csv, parse).value, tram, band)
    ensures CsvHas(csv, tram, band) && band in bands
  {
    ConvertedRows(csv, parse);
    BandOf(csv, tram, band);
  }

  /** A shape of a converted row, reprojected, is a reprojected NO2 shape of its segment. */
  lemma ConvertedShape<G>(x: AirRow<G>, no2: seq<WktRow<Segment>>, parse: string -> Result<G, string>, toWgs84: G -> G, b: int)
    requires WktToGeometry(no2, parse).Success?
    requires 0 <= b < |WktToGeometry(no2, parse).value|
    requires WktToGeometry(no2, parse).value[b].columns.tram == x.tram
    requires x.geometry == toWgs84(WktToGeometry(no2, parse).value[b].geometry)
    ensures ShapeFrom(x, no2, parse, toWgs84)
  {
    assert WktToGeometry(no2, parse).value[b] == GeoRow(no2[b].columns, parse(no2[b].wkt).value);
  }

  /**
   * On success every row carries three bands, one from each file, each read
   * from a row of that file with the same `TRAM` and lying in that
   * pollutant's list; its shape is a reprojected NO2 shape of that segment.
   */
  lemma AirQualityRows<G>(no2: seq<WktRow<Segment>>, pm25: seq<WktRow<Segment>>, pm10: seq<WktRow<Segment>>,
                          parse: string -> Result<G, string>, toWgs84: G -> G)
    requires AirQuality(no2, pm25, pm10, parse, toWgs84).Success?
    ensures var rows := AirQuality(no2, pm25, pm10, parse, toWgs84).value.rows;
      forall i :: 0 <= i < |rows| ==>
        |rows[i].bands| == 3
        && CsvHas(no2, rows[i].tram, rows[i].bands[0]) && rows[i].bands[0] in NO2Bands
        && CsvHas(pm25, rows[i].tram, rows[i].bands[1]) && rows[i].bands[1] in PM25Bands
        && CsvHas(pm10, rows[i].tram, rows[i].bands[2]) && rows[i].bands[2] in PM10Bands
        && ShapeFrom(rows[i], no2, parse, toWgs84)
  {
    AirQualityParts(no2, pm25, pm10, parse, toWgs84);
    AirQualitySucceeds(no2, pm25, pm10, parse, toWgs84);
    var g0, g1, g2 := WktToGeometry(no2, parse).value, WktToGeometry(pm25, parse).value, WktToGeometry(pm10, parse).value;
    var rows := AirQuality(no2, pm25, pm10, parse, toWgs84).value.rows;
    MergedRows(g0, g1, g2, toWgs84);
    forall i | 0 <= i < |rows| ensures
        |rows[i].bands| == 3
        && CsvHas(no2, rows[i].tram, rows[i].bands[0]) && rows[i].bands[0] in NO2Bands
        && CsvHas(pm25, rows[i].tram, rows[i].bands[1]) && rows[i].bands[1] in PM25Bands
        && CsvHas(pm10, rows[i].tram, rows[i].bands[2]) && rows[i].bands[2] in PM10Bands
        && ShapeFrom(rows[i], no2, parse, toWgs84)
    {
      var x := rows[i];
      assert MergedRowOf(x, g0, g1, g2, toWgs84);
      ConvertedBand(no2, parse, NO2Bands, x.tram, x.bands[0]);
      ConvertedBand(pm25, parse, PM25Bands, x.tram, x.bands[1]);
      ConvertedBand(pm10, parse, PM10Bands, x.tram, x.bands[2]);
      var b :| 0 <= b < |g0| && g0[b].columns.tram == x.tram && x.geometry == toWgs84(g0[b].geometry);
      ConvertedShape(x, no2, parse, toWgs84, b);
    }
  }

  lemma BandOf(rows: seq<WktRow<Segment>>, tram: string, band: string)
    requires CsvHas(rows, tram, band)
    ensures HasKey(rows, CsvBand, band)
  {
    var i :| 0 <= i < |rows| && rows[i].columns == Segment(tram, band);
    assert CsvBand(rows[i]) == band;
  }

  /** A successful load_air_data is the reprojected merge of the three converted tables. */
  lemma AirQualityParts<G>(no2: seq<WktRow<Segment>>, pm25: seq<WktRow<Segment>>, pm10: seq<WktRow<Segment>>,
                           parse: string -> Result<G, string>, toWgs84: G -> G)
    requires AirQuality(no2, pm25, pm10, parse, toWgs84).Success?
    ensures WktToGeometry(no2, parse).Success? && WktToGeometry(pm25, parse).Success? && WktToGeometry(pm10, parse).Success?
    ensures var gdfs := [WktToGeometry(no2, parse).value, WktToGeometry(pm25, parse).value, WktToGeometry(pm10, parse).value];
      AirQuality(no2, pm25, pm10, parse, toWgs84).value.rows == Reproject(MergeAll(Base(gdfs[0]), gdfs), toWgs84)
  {
    var csvs := [no2, pm25, pm10];
    var gdfs := ConvertAll(csvs, parse).value;
    assert csvs[0] == no2 && csvs[1] == pm25 && csvs[2] == pm10;
    assert gdfs == [WktToGeometry(no2, parse).value, WktToGeometry(pm25, parse).value, WktToGeometry(pm10, parse).value];
  }

  /** The merge of three tables keeps exactly the segments present in all three. */
  lemma MergedKey<G>(g0: seq<GeoRow<Segment, G>>, g1: seq<GeoRow<Segment, G>>, g2: seq<GeoRow<Segment, G>>, toWgs84: G -> G, k: string)
    ensures HasKey(Reproject(MergeAll(Base(g0), [g0, g1, g2]), toWgs84), RowTram, k) <==>
      HasKey(g0, GeoTram, k) && HasKey(g1, GeoTram, k) && HasKey(g2, GeoTram, k)
  {
    var gdfs := [g0, g1, g2];
    BaseKey(g0, k);
    MergeAllKey(Base(g0), gdfs, k);
    ReprojectKey(MergeAll(Base(g0), gdfs), toWgs84, k);
    assert gdfs[0] == g0 && gdfs[1] == g1 && gdfs[2] == g2;
    if HasKey(g0, GeoTram, k) && HasKey(g1, GeoTram, k) && HasKey(g2, GeoTram, k) {
      forall p | 0 <= p < |gdfs| ensures HasKey(gdfs[p], GeoTram, k) {
      }
    }
  }

  /** On success the table holds exactly the segments present in all three files. */
  lemma AirQualityTrams<G>(no2: seq<WktRow<Segment>>, pm25: seq<WktRow<Segment>>, pm10: seq<WktRow<Segment>>,
                           parse: string -> Result<G, string>, toWgs84: G -> G)
    requires AirQuality(no2, pm25, pm10, parse, toWgs84).Success?
    ensures var rows := AirQuality(no2, pm25, pm10, parse, toWgs84).value.rows;
      forall k :: HasKey(rows, RowTram, k) <==> HasKey(no2, CsvTram, k) && HasKey(pm25, CsvTram, k) && HasKey(pm10, CsvTram, k)
  {
    AirQualityParts(no2, pm25, pm10, parse, toWgs84);
    var rows := AirQuality(no2, pm25, pm10, parse, toWgs84).value.rows;
    forall k ensures HasKey(rows, RowTram, k) <==> HasKey(no2, CsvTram, k) && HasKey(pm25, CsvTram, k) && HasKey(pm10, CsvTram, k) {
      ConvertedKey(no2, parse, k);
      ConvertedKey(pm25, parse, k);
      ConvertedKey(pm10, parse, k);
      MergedKey(WktToGeometry(no2, parse).value, WktToGeometry(pm25, parse).value, WktToGeometry(pm10, parse).value, toWgs84, k);
    }
  }

  /** Three tables without repeated segments merge into a table without repeated segments. */
  lemma MergedUnique<G>(g0: seq<GeoRow<Segment, G>>, g1: seq<GeoRow<Segment, G>>, g2: seq<GeoRow<Segment, G>>, toWgs84: G -> G)
    requires UniqueKeys(g0, GeoTram) && UniqueKeys(g1, GeoTram) && UniqueKeys(g2, GeoTram)
    ensures UniqueKeys(Reproject(MergeAll(Base(g0), [g0, g1, g2]), toWgs84), RowTram)
  {
    var gdfs := [g0, g1, g2];
    BaseRows(g0);
    assert forall p :: 0 <= p < |gdfs| ==> UniqueKeys(gdfs[p], GeoTram);
    MergeAllUnique(Base(g0), gdfs);
    ReprojectUnique(MergeAll(Base(g0), gdfs), toWgs84);
  }

  /** When no file repeats a segment, the table holds each common segment once. */
  lemma AirQualityUnique<G>(no2: seq<WktRow<Segment>>, pm25: seq<WktRow<Segment>>, pm10: seq<WktRow<Segment>>,
                            parse: string -> Result<G, string>, toWgs84: G -> G)
    requires AirQuality(no2, pm25, pm10, parse, toWgs84).Success?
    requires UniqueKeys(no2, CsvTram) && UniqueKeys(pm25, CsvTram) && UniqueKeys(pm10, CsvTram)
    ensures UniqueKeys(AirQuality(no2, pm25, pm10, parse, toWgs84).value.rows, RowTram)
  {
    AirQualityParts(no2, pm25, pm10, parse, toWgs84);
    ConvertedRows(no2, parse);
    ConvertedRows(pm25, parse);
    ConvertedRows(pm10, parse);
    MergedUnique(WktToGeometry(no2, parse).value, WktToGeometry(pm25, parse).value, WktToGeometry(pm10, parse).value, toWgs84);
  }
}
