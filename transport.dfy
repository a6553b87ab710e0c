/**
 * The vehicle-fleet tables: per-district totals and the share of vehicles
 * older than 20 years (`load_transport_age_data`), the share of electric and
 * hybrid vehicles (`load_transport_type_data`), both left-merged onto the
 * district geometries; the k-means table built from the two shares
 * (`load_kmeans_data`); and the two city-wide percentages.
 */
module Transport {
  import opened Wrappers
  import opened Tables
  import opened Numbers
  import opened Geometry

  /** A record of the vehicle-age file: `Nom_Districte`, `Antiguitat`, `Nombre`. */
  datatype AgeRecord = AgeRecord(district: string, age: string, count: nat)

  /** A record of the propulsion-type file: `Nom_Districte`, `Tipus_Propulsio`, `Nombre`. */
  datatype TypeRecord = TypeRecord(district: string, propulsion: string, count: nat)

  /** The district-geometry file's columns besides the WKT: `codi_districte`, `nom_districte`. */
  datatype District = District(code: string, name: string)

  /**
   * The age class of vehicles over 20 years old, exactly as the code spells
   * it: "Més de 20 anys" with its "é" as the two characters of its UTF-8
   * bytes read as Latin-1.
   */
  const OldAge: string := "MÃ©s de 20 anys"

  /** The placeholder district of records without a known district. */
  const Unknown: string := "No consta"

  const Electric: string := "Elèctrica"
  const Hybrid: string := "Híbrid"

  function AgeDistrict(r: AgeRecord): string { r.district }
  function AgeCount(r: AgeRecord): nat { r.count }
  predicate IsOld(r: AgeRecord) { r.age == OldAge }

  function TypeDistrict(r: TypeRecord): string { r.district }
  function TypeCount(r: TypeRecord): nat { r.count }
  predicate IsGreen(r: TypeRecord) { r.propulsion == Electric || r.propulsion == Hybrid }

  function GeoName<G>(g: GeoRow<District, G>): string { g.columns.name }

  // ---- Part and whole per district ----

  /** A district with its total count and, when it has any selected record, the selected count. */
  datatype Share = Share(district: string, total: nat, part: Option<nat>)

  function ShareDistrict(s: Share): string { s.district }

  /** The sum over the records of district `d` that `p` selects; null when there are none. */
  ghost function PartSum<R>(rs: seq<R>, key: R -> string, val: R -> nat, p: R -> bool, d: string): Option<nat>
  {
    if HasKey(Filter(rs, p), key, d) then Some(SumOf(Filter(rs, p), key, d, val)) else None
  }

  function SumOrNull(g: Option<Group>): Option<nat>
  {
    match g
    case None => None
    case Some(g) => Some(g.sum)
  }

  /**
   * `groupby(key).sum()` over all records, left-merged with the same over the
   * records `p` selects (lines 96-111 and 133-151).
   */
  function Shares<R>(rs: seq<R>, key: R -> string, val: R -> nat, p: R -> bool): seq<Share>
  {
    var totals := GroupSum(rs, key, val);
    var parts := GroupSum(Filter(rs, p), key, val);
    var merged := LeftJoin(totals, GroupKey, parts, GroupKey);
    seq(|merged|, i requires 0 <= i < |merged| => Share(merged[i].0.key, merged[i].0.sum, SumOrNull(merged[i].1)))
  }

  /** Row `s` holds district `s.district`'s total and selected sums. */
  ghost predicate ShareOf<R>(s: Share, rs: seq<R>, key: R -> string, val: R -> nat, p: R -> bool)
  {
    s.total == SumOf(rs, key, s.district, val) && s.part == PartSum(rs, key, val, p, s.district)
  }

  /**
   * One row per district of the records, each with its sums; a district
   * without selected records gets a null part, not 0.
   */
  lemma SharesFacts<R>(rs: seq<R>, key: R -> string, val: R -> nat, p: R -> bool)
    ensures UniqueKeys(Shares(rs, key, val, p), ShareDistrict)
    ensures forall d :: HasKey(Shares(rs, key, val, p), ShareDistrict, d) <==> HasKey(rs, key, d)
    ensures forall i :: 0 <= i < |Shares(rs, key, val, p)| ==> ShareOf(Shares(rs, key, val, p)[i], rs, key, val, p)
  {
    var totals := GroupSum(rs, key, val);
    var parts := GroupSum(Filter(rs, p), key, val);
    var s := Shares(rs, key, val, p);
    LeftJoinUnique(totals, GroupKey, parts, GroupKey);
    assert forall i :: 0 <= i < |s| ==> ShareDistrict(s[i]) == GroupKey(totals[i]);
    forall d ensures HasKey(s, ShareDistrict, d) <==> HasKey(totals, GroupKey, d) {
      if HasKey(totals, GroupKey, d) {
        var i :| 0 <= i < |totals| && GroupKey(totals[i]) == d;
        assert ShareDistrict(s[i]) == d;
      }
    }
    forall i | 0 <= i < |s| ensures ShareOf(s[i], rs, key, val, p) {
      var d := totals[i].key;
      var f := Find(parts, GroupKey, d);
      assert s[i] == Share(d, totals[i].sum, SumOrNull(f));
      if f.Some? {
        var j :| 0 <= j < |parts| && parts[j] == f.value;
        assert parts[j].sum == SumOf(Filter(rs, p), key, d, val);
      }
    }
  }

  /**
   * The selected sum of district `d` is present iff some record of `d` is
   * selected. It then adds every selected record of `d`, repeated records
   * included, and nothing else.
   */
  lemma PartSumExact<R>(rs: seq<R>, key: R -> string, val: R -> nat, p: R -> bool, d: string)
    ensures PartSum(rs, key, val, p, d).Some? <==> exists i :: 0 <= i < |rs| && key(rs[i]) == d && p(rs[i])
    ensures PartSum(rs, key, val, p, d).Some? ==>
      PartSum(rs, key, val, p, d).value == SumOf(rs, key, d, (r: R) => if p(r) then val(r) else 0)
  {
    FilterHasKey(rs, p, key, d);
    FilterSumOfExact(rs, p, key, d, val);
  }

  /** A part never exceeds its total. */
  lemma PartAtMostTotal<R>(rs: seq<R>, key: R -> string, val: R -> nat, p: R -> bool, d: string)
    ensures PartSum(rs, key, val, p, d).Some? ==> PartSum(rs, key, val, p, d).value <= SumOf(rs, key, d, val)
  {
    FilterSumOf(rs, p, key, d, val);
  }

  /**
   * `(part / total) * 100` rounded to two decimals, as the text "{:,.2f}"
   * writes and `astype(float)` reads back, lies in [0, 100] and within 0.005
   * of the exact ratio; it is null when the part is null or the total is 0.
   */
  lemma PercentOfShare(part: Option<nat>, total: nat)
    requires part.Some? ==> part.value <= total
    ensures ParseFloat(FormatFixed2(Percent(part, total))) == Success(Rounded(Percent(part, total)))
    ensures Rounded(Percent(part, total)).NaN? <==> part.None? || total == 0
    ensures Rounded(Percent(part, total)).Finite? <==> part.Some? && total > 0
    ensures part.Some? && total > 0 ==>
      0.0 <= Rounded(Percent(part, total)).value <= 100.0
      && -0.005 < Rounded(Percent(part, total)).value - 100.0 * (part.value as real) / (total as real) <= 0.005
  {
    var f := Percent(part, total);
    if f.Finite? {
      var c := RoundCents(f.value);
      assert (c as real) - 0.5 <= 100.0 * f.value <= 10000.0;
      assert c <= 10000;
      var t := total as real;
      assert f.value * t == 100.0 * (part.value as real);
      assert f.value == (f.value * t) / t;
      assert f.value == 100.0 * (part.value as real) / t;
    }
    ParseFormatted(f);
  }

  // ---- load_transport_age_data ----

  /** A row of `merged` at lines 112-114, its `Percentage` still the "{:,.2f}" text. */
  datatype AgeDraft = AgeDraft(district: string, totalVehicles: nat, vehicles20Any: Option<nat>, percentage: string)

  /** A row of the age summary: `Nom_Districte`, `Total_Vehicles`, `Vehicles_20_Any`, `Percentage`. */
  datatype AgeSummaryRow = AgeSummaryRow(district: string, totalVehicles: nat, vehicles20Any: Option<nat>, percentage: Float)

  function DraftDistrict(d: AgeDraft): string { d.district }
  function AgeRowDistrict(r: AgeSummaryRow): string { r.district }
  predicate IsKnown(d: AgeDraft) { d.district != Unknown }

  /** Lines 112-113: the percentage of old vehicles, formatted with two decimals. */
  function Drafts(shares: seq<Share>): seq<AgeDraft>
  {
    seq(|shares|, i requires 0 <= i < |shares| =>
      AgeDraft(shares[i].district, shares[i].total, shares[i].part, FormatFixed2(Percent(shares[i].part, shares[i].total))))
  }

  /** Line 115, `astype(float)`: every text read back as a number; the first that is not one aborts. */
  function ReadPercentages(ds: seq<AgeDraft>): (r: Result<seq<AgeSummaryRow>, string>)
    ensures r.Success? <==> forall i :: 0 <= i < |ds| ==> ParseFloat(ds[i].percentage).Success?
    ensures r.Success? ==> |r.value| == |ds| && forall i :: 0 <= i < |ds| ==>
      r.value[i] == AgeSummaryRow(ds[i].district, ds[i].totalVehicles, ds[i].vehicles20Any, ParseFloat(ds[i].percentage).value)
    ensures r.Failure? ==> exists i :: 0 <= i < |ds| && ParseFloat(ds[i].percentage) == Failure(r.error)
  {
    if ds == [] then Success([])
    else
      match ParseFloat(ds[0].percentage)
      case Failure(e) => Failure(e)
      case Success(f) =>
        match ReadPercentages(ds[1..])
        case Failure(e) => assert ds[1..][0] == ds[1]; Failure(e)
        case Success(rest) => Success([AgeSummaryRow(ds[0].district, ds[0].totalVehicles, ds[0].vehicles20Any, f)] + rest)
  }

  /** `merged` as load_transport_age_data leaves it at line 115. */
  function AgeSummary(vage: seq<AgeRecord>): Result<seq<AgeSummaryRow>, string>
  {
    ReadPercentages(Filter(Drafts(Shares(vage, AgeDistrict, AgeCount, IsOld)), IsKnown))
  }

  /** Row `d` holds the sums of district `d.district` and their formatted percentage. */
  ghost predicate DraftOf(d: AgeDraft, vage: seq<AgeRecord>)
  {
    d.totalVehicles == SumOf(vage, AgeDistrict, d.district, AgeCount)
    && d.vehicles20Any == PartSum(vage, AgeDistrict, AgeCount, IsOld, d.district)
    && d.percentage == FormatFixed2(Percent(d.vehicles20Any, d.totalVehicles))
  }

  /** Row `r` is known district `r.district`'s summary. */
  ghost predicate AgeRowOf(r: AgeSummaryRow, vage: seq<AgeRecord>)
  {
    r.district != Unknown
    && r.totalVehicles == SumOf(vage, AgeDistrict, r.district, AgeCount)
    && r.vehicles20Any == PartSum(vage, AgeDistrict, AgeCount, IsOld, r.district)
    && r.percentage == Rounded(Percent(r.vehicles20Any, r.totalVehicles))
  }

  lemma DraftsFacts(vage: seq<AgeRecord>)
    ensures var ds := Drafts(Shares(vage, AgeDistrict, AgeCount, IsOld));
      UniqueKeys(ds, DraftDistrict)
      && (forall d :: HasKey(ds, DraftDistrict, d) <==> HasKey(vage, AgeDistrict, d))
      && forall i :: 0 <= i < |ds| ==> DraftOf(ds[i], vage)
  {
    var shares := Shares(vage, AgeDistrict, AgeCount, IsOld);
    var ds := Drafts(shares);
    SharesFacts(vage, AgeDistrict, AgeCount, IsOld);
    assert forall i :: 0 <= i < |ds| ==> DraftDistrict(ds[i]) == ShareDistrict(shares[i]);
    forall d ensures HasKey(ds, DraftDistrict, d) <==> HasKey(shares, ShareDistrict, d) {
      if HasKey(shares, ShareDistrict, d) {
        var i :| 0 <= i < |shares| && ShareDistrict(shares[i]) == d;
        assert DraftDistrict(ds[i]) == d;
      }
    }
    forall i | 0 <= i < |ds| ensures DraftOf(ds[i], vage) {
      assert ShareOf(shares[i], vage, AgeDistrict, AgeCount, IsOld);
    }
  }

  /** Draft `d` is of a known district, and its percentage text reads back as the rounded ratio. */
  ghost predicate KnownDraft(d: AgeDraft, vage: seq<AgeRecord>)
  {
    DraftOf(d, vage) && d.district != Unknown
    && ParseFloat(d.percentage) == Success(Rounded(Percent(d.vehicles20Any, d.totalVehicles)))
  }

  /** The drafts kept by line 114: known districts whose percentage text reads back as the rounded ratio. */
  lemma KnownDraftsFacts(vage: seq<AgeRecord>)
    ensures var known := Filter(Drafts(Shares(vage, AgeDistrict, AgeCount, IsOld)), IsKnown);
      UniqueKeys(known, DraftDistrict)
      && (forall d :: HasKey(known, DraftDistrict, d) <==> d != Unknown && HasKey(vage, AgeDistrict, d))
      && forall i :: 0 <= i < |known| ==> KnownDraft(known[i], vage)
  {
    var ds := Drafts(Shares(vage, AgeDistrict, AgeCount, IsOld));
    var known := Filter(ds, IsKnown);
    DraftsFacts(vage);
    FilterUnique(ds, IsKnown, DraftDistrict);
    forall i | 0 <= i < |known| ensures KnownDraft(known[i], vage) {
      var j :| 0 <= j < |ds| && ds[j] == known[i];
      PartAtMostTotal(vage, AgeDistrict, AgeCount, IsOld, known[i].district);
      PercentOfShare(known[i].vehicles20Any, known[i].totalVehicles);
    }
    forall d ensures HasKey(known, DraftDistrict, d) <==> d != Unknown && HasKey(vage, AgeDistrict, d) {
      FilterHasKey(ds, IsKnown, DraftDistrict, d);
      if d != Unknown && HasKey(vage, AgeDistrict, d) {
        var j :| 0 <= j < |ds| && DraftDistrict(ds[j]) == d;
        assert IsKnown(ds[j]);
      }
    }
  }

  lemma ReadKnownDrafts(ds: seq<AgeDraft>, vage: seq<AgeRecord>)
    requires UniqueKeys(ds, DraftDistrict)
    requires forall i :: 0 <= i < |ds| ==> KnownDraft(ds[i], vage)
    ensures ReadPercentages(ds).Success?
    ensures UniqueKeys(ReadPercentages(ds).value, AgeRowDistrict)
    ensures forall d :: HasKey(ReadPercentages(ds).value, AgeRowDistrict, d) <==> HasKey(ds, DraftDistrict, d)
    ensures forall i :: 0 <= i < |ReadPercentages(ds).value| ==> AgeRowOf(ReadPercentages(ds).value[i], vage)
  {
    var rows := ReadPercentages(ds).value;
    assert forall i :: 0 <= i < |rows| ==> AgeRowDistrict(rows[i]) == DraftDistrict(ds[i]);
    forall d ensures HasKey(rows, AgeRowDistrict, d) <==> HasKey(ds, DraftDistrict, d) {
      if HasKey(ds, DraftDistrict, d) {
        var i :| 0 <= i < |ds| && DraftDistrict(ds[i]) == d;
        assert AgeRowDistrict(rows[i]) == d;
      }
    }
  }

  /**
   * The age summary never fails: every percentage it formats reads back. It
   * has one row per district of the records except "No consta", each with its
   * sums and rounded percentage.
   */
  lemma AgeSummaryFacts(vage: seq<AgeRecord>)
    ensures AgeSummary(vage).Success?
    ensures UniqueKeys(AgeSummary(vage).value, AgeRowDistrict)
    ensures forall d :: HasKey(AgeSummary(vage).value, AgeRowDistrict, d) <==> d != Unknown && HasKey(vage, AgeDistrict, d)
    ensures forall i :: 0 <= i < |AgeSummary(vage).value| ==> AgeRowOf(AgeSummary(vage).value[i], vage)
  {
    KnownDraftsFacts(vage);
    ReadKnownDrafts(Filter(Drafts(Shares(vage, AgeDistrict, AgeCount, IsOld)), IsKnown), vage);
  }

  /**
   * An age-summary row: the old count is at most the total; the percentage is
   * null exactly when the district has no old record or its total is 0, and
   * otherwise lies in [0, 100], within 0.005 of the exact ratio.
   */
  lemma AgeRowBounds(r: AgeSummaryRow, vage: seq<AgeRecord>)
    requires AgeRowOf(r, vage)
    ensures r.vehicles20Any.None? <==> forall i :: 0 <= i < |vage| && vage[i].district == r.district ==> !IsOld(vage[i])
    ensures r.vehicles20Any.Some? ==> r.vehicles20Any.value <= r.totalVehicles
    ensures r.percentage.NaN? <==> r.vehicles20Any.None? || r.totalVehicles == 0
    ensures r.vehicles20Any.Some? && r.totalVehicles > 0 ==>
      r.percentage.Finite? && 0.0 <= r.percentage.value <= 100.0
      && -0.005 < r.percentage.value - 100.0 * (r.vehicles20Any.value as real) / (r.totalVehicles as real) <= 0.005
  {
    FilterHasKey(vage, IsOld, AgeDistrict, r.district);
    PartAtMostTotal(vage, AgeDistrict, AgeCount, IsOld, r.district);
    PercentOfShare(r.vehicles20Any, r.totalVehicles);
  }

  // ---- load_transport_type_data ----

  /** A row of the green summary: `Nom_Districte`, `Total_Vehicles`, `Green_Vehicles`, and `Percentage` left as text. */
  datatype TypeSummaryRow = TypeSummaryRow(district: string, totalVehicles: nat, greenVehicles: Option<nat>, percentage: string)

  function TypeRowDistrict(r: TypeSummaryRow): string { r.district }

  /** `merged` as load_transport_type_data leaves it at line 153: no district filtered, no float conversion. */
  function TypeSummary(vtype: seq<TypeRecord>): seq<TypeSummaryRow>
  {
    var shares := Shares(vtype, TypeDistrict, TypeCount, IsGreen);
    seq(|shares|, i requires 0 <= i < |shares| =>
      TypeSummaryRow(shares[i].district, shares[i].total, shares[i].part, FormatFixed2(Percent(shares[i].part, shares[i].total))))
  }

  /** Row `r` is district `r.district`'s green summary. */
  ghost predicate TypeRowOf(r: TypeSummaryRow, vtype: seq<TypeRecord>)
  {
    r.totalVehicles == SumOf(vtype, TypeDistrict, r.district, TypeCount)
    && r.greenVehicles == PartSum(vtype, TypeDistrict, TypeCount, IsGreen, r.district)
    && r.percentage == FormatFixed2(Percent(r.greenVehicles, r.totalVehicles))
  }

  /** One row per district of the records, "No consta" included, each with its sums. */
  lemma TypeSummaryFacts(vtype: seq<TypeRecord>)
    ensures UniqueKeys(TypeSummary(vtype), TypeRowDistrict)
    ensures forall d :: HasKey(TypeSummary(vtype), TypeRowDistrict, d) <==> HasKey(vtype, TypeDistrict, d)
    ensures forall i :: 0 <= i < |TypeSummary(vtype)| ==> TypeRowOf(TypeSummary(vtype)[i], vtype)
  {
    var shares := Shares(vtype, TypeDistrict, TypeCount, IsGreen);
    var rows := TypeSummary(vtype);
    SharesFacts(vtype, TypeDistrict, TypeCount, IsGreen);
    assert forall i :: 0 <= i < |rows| ==> TypeRowDistrict(rows[i]) == ShareDistrict(shares[i]);
    forall d ensures HasKey(rows, TypeRowDistrict, d) <==> HasKey(shares, ShareDistrict, d) {
      if HasKey(shares, ShareDistrict, d) {
        var i :| 0 <= i < |shares| && ShareDistrict(shares[i]) == d;
        assert TypeRowDistrict(rows[i]) == d;
      }
    }
    forall i | 0 <= i < |rows| ensures TypeRowOf(rows[i], vtype) {
      assert ShareOf(shares[i], vtype, TypeDistrict, TypeCount, IsGreen);
    }
  }

  /**
   * A green-summary row: green vehicles are those whose propulsion is
   * "Elèctrica" or "Híbrid", at most the total; the percentage text reads back
   * as the rounded ratio, in [0, 100] when the district has green vehicles
   * and a positive total, and "nan" otherwise.
   */
  lemma TypeRowBounds(r: TypeSummaryRow, vtype: seq<TypeRecord>)
    requires TypeRowOf(r, vtype)
    ensures r.greenVehicles.None? <==>
      forall i :: 0 <= i < |vtype| && vtype[i].district == r.district ==> vtype[i].propulsion != Electric && vtype[i].propulsion != Hybrid
    ensures r.greenVehicles.Some? ==> r.greenVehicles.value <= r.totalVehicles
    ensures ParseFloat(r.percentage) == Success(Rounded(Percent(r.greenVehicles, r.totalVehicles)))
    ensures r.greenVehicles.None? || r.totalVehicles == 0 ==> r.percentage == "nan"
    ensures r.greenVehicles.Some? && r.totalVehicles > 0 ==>
      0.0 <= Rounded(Percent(r.greenVehicles, r.totalVehicles)).value <= 100.0
  {
    FilterHasKey(vtype, IsGreen, TypeDistrict, r.district);
    PartAtMostTotal(vtype, TypeDistrict, TypeCount, IsGreen, r.district);
    PercentOfShare(r.greenVehicles, r.totalVehicles);
  }

  // ---- Merging onto the district geometries ----

  /** `o` is the row of `summary` keyed `name` when there is one, and null otherwise. */
  ghost predicate MatchedBy<S>(o: Option<S>, summary: seq<S>, skey: S -> string, name: string)
  {
    (o.Some? <==> HasKey(summary, skey, name)) && (o.Some? ==> o.value in summary && skey(o.value) == name)
  }

  /**
   * `gdf.merge(summary, on="Nom_Districte", how="left")` for a summary with
   * unique districts: one row per geometry row, in geometry order, carrying
   * that district's summary row or null.
   */
  lemma GeoMergeRows<G, S>(districts: seq<WktRow<District>>, parse: string -> Result<G, string>, summary: seq<S>, skey: S -> string)
    requires WktToGeometry(districts, parse).Success?
    requires UniqueKeys(summary, skey)
    ensures var out := LeftJoin(WktToGeometry(districts, parse).value, GeoName, summary, skey);
      |out| == |districts|
      && forall i :: 0 <= i < |districts| ==>
           out[i].0 == GeoRow(districts[i].columns, parse(districts[i].wkt).value)
           && MatchedBy(out[i].1, summary, skey, districts[i].columns.name)
  {
    var gdf := WktToGeometry(districts, parse).value;
    LeftJoinUnique(gdf, GeoName, summary, skey);
  }

  /** load_transport_age_data, given the contents of its two files. */
  function LoadTransportAgeData<G>(vage: seq<AgeRecord>, districts: seq<WktRow<District>>, parse: string -> Result<G, string>)
    : Result<seq<(GeoRow<District, G>, Option<AgeSummaryRow>)>, string>
  {
    match AgeSummary(vage)
    case Failure(e) => Failure(e)
    case Success(merged) =>
      match WktToGeometry(districts, parse)
      case Failure(e) => Failure(e)
      case Success(gdf) => Success(LeftJoin(gdf, GeoName, merged, AgeRowDistrict))
  }

  /**
   * load_transport_age_data fails only on a malformed district shape. It
   * yields one row per district-geometry row, in order; a district gets its
   * age summary when it has vehicle records and is not "No consta", and null
   * aggregates otherwise.
   */
  lemma LoadTransportAgeRows<G>(vage: seq<AgeRecord>, districts: seq<WktRow<District>>, parse: string -> Result<G, string>)
    ensures LoadTransportAgeData(vage, districts, parse).Success? <==> forall i :: 0 <= i < |districts| ==> parse(districts[i].wkt).Success?
    ensures var r := LoadTransportAgeData(vage, districts, parse);
      r.Success? ==> |r.value| == |districts| && forall i :: 0 <= i < |districts| ==>
        r.value[i].0 == GeoRow(districts[i].columns, parse(districts[i].wkt).value)
        && (r.value[i].1.Some? <==> districts[i].columns.name != Unknown && HasKey(vage, AgeDistrict, districts[i].columns.name))
        && (r.value[i].1.Some? ==> r.value[i].1.value.district == districts[i].columns.name && AgeRowOf(r.value[i].1.value, vage))
  {
    AgeSummaryFacts(vage);
    if WktToGeometry(districts, parse).Success? {
      GeoMergeRows(districts, parse, AgeSummary(vage).value, AgeRowDistrict);
    }
  }

  /** load_transport_type_data, given the contents of its two files. */
  function LoadTransportTypeData<G>(vtype: seq<TypeRecord>, districts: seq<WktRow<District>>, parse: string -> Result<G, string>)
    : Result<seq<(GeoRow<District, G>, Option<TypeSummaryRow>)>, string>
  {
    var merged := TypeSummary(vtype);
    match WktToGeometry(districts, parse)
    case Failure(e) => Failure(e)
    case Success(gdf) => Success(LeftJoin(gdf, GeoName, merged, TypeRowDistrict))
  }

  /**
   * load_transport_type_data fails only on a malformed district shape. It
   * yields one row per district-geometry row, in order; a district gets its
   * green summary when it has vehicle records, and null aggregates otherwise.
   */
  lemma LoadTransportTypeRows<G>(vtype: seq<TypeRecord>, districts: seq<WktRow<District>>, parse: string -> Result<G, string>)
    ensures LoadTransportTypeData(vtype, districts, parse).Success? <==> forall i :: 0 <= i < |districts| ==> parse(districts[i].wkt).Success?
    ensures var r := LoadTransportTypeData(vtype, districts, parse);
      r.Success? ==> |r.value| == |districts| && forall i :: 0 <= i < |districts| ==>
        r.value[i].0 == GeoRow(districts[i].columns, parse(districts[i].wkt).value)
        && (r.value[i].1.Some? <==> HasKey(vtype, TypeDistrict, districts[i].columns.name))
        && (r.value[i].1.Some? ==> r.value[i].1.value.district == districts[i].columns.name && TypeRowOf(r.value[i].1.value, vtype))
  {
    TypeSummaryFacts(vtype);
    if WktToGeometry(districts, parse).Success? {
      GeoMergeRows(districts, parse, TypeSummary(vtype), TypeRowDistrict);
    }
  }

  // ---- load_kmeans_data ----

  /** A k-means label: `KMeans(n_clusters=3)` numbers its clusters 0, 1 and 2. */
  type Cluster = k: int | 0 <= k < 3

  /** A row of `gdf_age` after line 172: `Nom_Districte`, `Age_Percentage`. */
  datatype AgeFeature = AgeFeature(district: string, agePercentage: Float)

  /** A row of `gdf_type` after line 173: `Nom_Districte`, `Green_Percentage` (text, or null). */
  datatype GreenFeature = GreenFeature(district: string, greenPercentage: Option<string>)

  /** The two columns handed to the k-means fit. */
  datatype Features = Features(agePercentage: Float, greenPercentage: Option<string>)

  /** A row of `gdf_kmean` after line 181. */
  datatype ClusterRow = ClusterRow(district: string, agePercentage: Float, greenPercentage: Option<string>, cluster: Cluster)

  function AgeName<G>(r: (GeoRow<District, G>, Option<AgeSummaryRow>)): string { r.0.columns.name }
  function TypeName<G>(r: (GeoRow<District, G>, Option<TypeSummaryRow>)): string { r.0.columns.name }
  function AgeFeatureDistrict(f: AgeFeature): string { f.district }
  function GreenFeatureDistrict(f: GreenFeature): string { f.district }
  function ClusterDistrict(c: ClusterRow): string { c.district }

  /** A merged row's `Percentage` column: null when the district had no summary row. */
  function AgeOf(o: Option<AgeSummaryRow>): Float
  {
    if o.Some? then o.value.percentage else NaN
  }

  function GreenOf(o: Option<TypeSummaryRow>): Option<string>
  {
    if o.Some? then Some(o.value.percentage) else None
  }

  function AgeFeatures<G>(age: seq<(GeoRow<District, G>, Option<AgeSummaryRow>)>): seq<AgeFeature>
  {
    seq(|age|, i requires 0 <= i < |age| => AgeFeature(AgeName(age[i]), AgeOf(age[i].1)))
  }

  function GreenFeatures<G>(kind: seq<(GeoRow<District, G>, Option<TypeSummaryRow>)>): seq<GreenFeature>
  {
    seq(|kind|, i requires 0 <= i < |kind| => GreenFeature(TypeName(kind[i]), GreenOf(kind[i].1)))
  }

  /** Line 175: the age columns left-merged with the green columns on the district name. */
  function Fused<G>(age: seq<(GeoRow<District, G>, Option<AgeSummaryRow>)>, kind: seq<(GeoRow<District, G>, Option<TypeSummaryRow>)>)
    : seq<(AgeFeature, Option<GreenFeature>)>
  {
    LeftJoin(AgeFeatures(age), AgeFeatureDistrict, GreenFeatures(kind), GreenFeatureDistrict)
  }

  function FeaturesOf(fused: seq<(AgeFeature, Option<GreenFeature>)>): seq<Features>
  {
    seq(|fused|, i requires 0 <= i < |fused| =>
      Features(fused[i].0.agePercentage, if fused[i].1.Some? then fused[i].1.value.greenPercentage else None))
  }

  /** Line 181: each fused row gets the label at its position. */
  function Clustered(fused: seq<(AgeFeature, Option<GreenFeature>)>, labels: seq<Cluster>): seq<ClusterRow>
    requires |labels| == |fused|
  {
    var fs := FeaturesOf(fused);
    seq(|fused|, i requires 0 <= i < |fused| =>
      ClusterRow(fused[i].0.district, fs[i].agePercentage, fs[i].greenPercentage, labels[i]))
  }

  /**
   * load_kmeans_data, given the two merged tables. `fit` stands for
   * `KMeans(n_clusters=3, random_state=0).fit(...)`, which may raise; the
   * assignment of its labels raises when their number differs from the
   * number of rows.
   */
  function LoadKMeansData<G>(age: seq<(GeoRow<District, G>, Option<AgeSummaryRow>)>, kind: seq<(GeoRow<District, G>, Option<TypeSummaryRow>)>,
                             fit: seq<Features> -> Result<seq<Cluster>, string>,
                             districts: seq<WktRow<District>>, parse: string -> Result<G, string>)
    : Result<seq<(GeoRow<District, G>, Option<ClusterRow>)>, string>
  {
    var fused := Fused(age, kind);
    match fit(FeaturesOf(fused))
    case Failure(e) => Failure(e)
    case Success(labels) =>
      if |labels| != |fused| then Failure("Length of values does not match length of index")
      else
        match WktToGeometry(districts, parse)
        case Failure(e) => Failure(e)
        case Success(gdf) => Success(LeftJoin(gdf, GeoName, Clustered(fused, labels), ClusterDistrict))
  }

  /** The green percentage the type table holds for district `name`, or null when it has no row for it. */
  ghost predicate GreenFor<G>(g: Option<string>, kind: seq<(GeoRow<District, G>, Option<TypeSummaryRow>)>, name: string)
  {
    if HasKey(kind, TypeName, name) then exists j :: 0 <= j < |kind| && TypeName(kind[j]) == name && g == GreenOf(kind[j].1)
    else g.None?
  }

  lemma GreenFeaturesFacts<G>(kind: seq<(GeoRow<District, G>, Option<TypeSummaryRow>)>)
    requires UniqueKeys(kind, TypeName)
    ensures UniqueKeys(GreenFeatures(kind), GreenFeatureDistrict)
    ensures forall name :: HasKey(GreenFeatures(kind), GreenFeatureDistrict, name) <==> HasKey(kind, TypeName, name)
  {
    var gs := GreenFeatures(kind);
    assert forall i :: 0 <= i < |gs| ==> GreenFeatureDistrict(gs[i]) == TypeName(kind[i]);
    forall name ensures HasKey(gs, GreenFeatureDistrict, name) <==> HasKey(kind, TypeName, name) {
      if HasKey(kind, TypeName, name) {
        var i :| 0 <= i < |kind| && TypeName(kind[i]) == name;
        assert GreenFeatureDistrict(gs[i]) == name;
      }
    }
  }

  /**
   * With district names unique in the type table, the fit sees one row per
   * row of the age table, in order: that district's age percentage and the
   * type table's green percentage for the same name, or null.
   */
  lemma FeaturesRows<G>(age: seq<(GeoRow<District, G>, Option<AgeSummaryRow>)>, kind: seq<(GeoRow<District, G>, Option<TypeSummaryRow>)>)
    requires UniqueKeys(kind, TypeName)
    ensures |Fused(age, kind)| == |age|
    ensures forall i :: 0 <= i < |age| ==> Fused(age, kind)[i].0 == AgeFeature(AgeName(age[i]), AgeOf(age[i].1))
    ensures forall i :: 0 <= i < |age| ==>
      FeaturesOf(Fused(age, kind))[i].agePercentage == AgeOf(age[i].1)
      && GreenFor(FeaturesOf(Fused(age, kind))[i].greenPercentage, kind, AgeName(age[i]))
  {
    var gs := GreenFeatures(kind);
    GreenFeaturesFacts(kind);
    LeftJoinUnique(AgeFeatures(age), AgeFeatureDistrict, gs, GreenFeatureDistrict);
    var fused := Fused(age, kind);
    var fs := FeaturesOf(fused);
    forall i | 0 <= i < |age| ensures GreenFor(fs[i].greenPercentage, kind, AgeName(age[i])) {
      var name := AgeName(age[i]);
      var o := Find(gs, GreenFeatureDistrict, name);
      assert fused[i].1 == o;
      if o.Some? {
        var j :| 0 <= j < |gs| && gs[j] == o.value;
        assert TypeName(kind[j]) == name && fs[i].greenPercentage == GreenOf(kind[j].1);
      }
    }
  }

  /**
   * Row `c` is district `name`'s: the percentage of its age row, the type
   * table's green percentage for the same name (or null), and the label at
   * the age row's position.
   */
  ghost predicate ClusterRowFor<G>(c: ClusterRow, age: seq<(GeoRow<District, G>, Option<AgeSummaryRow>)>,
                                   kind: seq<(GeoRow<District, G>, Option<TypeSummaryRow>)>, labels: seq<Cluster>, name: string)
  {
    GreenFor(c.greenPercentage, kind, name)
    && (exists j :: 0 <= j < |age| && j < |labels| && AgeName(age[j]) == name
         && c.district == name && c.agePercentage == AgeOf(age[j].1) && c.cluster == labels[j])
  }

  /**
   * load_kmeans_data fails exactly when the fit fails, when it returns a
   * label count other than the row count, or when a district shape is
   * malformed. With district names unique in both tables it yields one row
   * per district-geometry row, in order, carrying the clustered row of the
   * same district or null.
   */
  lemma LoadKMeansRows<G>(age: seq<(GeoRow<District, G>, Option<AgeSummaryRow>)>, kind: seq<(GeoRow<District, G>, Option<TypeSummaryRow>)>,
                          fit: seq<Features> -> Result<seq<Cluster>, string>,
                          districts: seq<WktRow<District>>, parse: string -> Result<G, string>)
    requires UniqueKeys(age, AgeName) && UniqueKeys(kind, TypeName)
    ensures var fs := FeaturesOf(Fused(age, kind));
      LoadKMeansData(age, kind, fit, districts, parse).Success? <==>
        fit(fs).Success? && |fit(fs).value| == |age| && forall i :: 0 <= i < |districts| ==> parse(districts[i].wkt).Success?
    ensures var r := LoadKMeansData(age, kind, fit, districts, parse);
      r.Success? ==> |r.value| == |districts| && forall i :: 0 <= i < |districts| ==>
        r.value[i].0 == GeoRow(districts[i].columns, parse(districts[i].wkt).value)
        && (r.value[i].1.Some? <==> HasKey(age, AgeName, districts[i].columns.name))
        && (r.value[i].1.Some? ==> ClusterRowFor(r.value[i].1.value, age, kind, fit(FeaturesOf(Fused(age, kind))).value, districts[i].columns.name))
  {
    FeaturesRows(age, kind);
    var fused := Fused(age, kind);
    var fs := FeaturesOf(fused);
    if fit(fs).Success? && |fit(fs).value| == |age| && WktToGeometry(districts, parse).Success? {
      var labels := fit(fs).value;
      var c := Clustered(fused, labels);
      assert forall j :: 0 <= j < |c| ==> ClusterDistrict(c[j]) == AgeName(age[j]);
      forall name ensures HasKey(c, ClusterDistrict, name) <==> HasKey(age, AgeName, name) {
        if HasKey(age, AgeName, name) {
          var j :| 0 <= j < |age| && AgeName(age[j]) == name;
          assert ClusterDistrict(c[j]) == name;
        }
      }
      GeoMergeRows(districts, parse, c, ClusterDistrict);
    }
  }

  function WktName(r: WktRow<District>): string { r.columns.name }

  /**
   * Line 197: when the district file names each district once, both merged
   * tables handed to load_kmeans_data do too, so its merges on the name are
   * one-to-one.
   */
  lemma LoadersUniqueNames<G>(vage: seq<AgeRecord>, vtype: seq<TypeRecord>, districts: seq<WktRow<District>>, parse: string -> Result<G, string>)
    requires UniqueKeys(districts, WktName)
    ensures LoadTransportAgeData(vage, districts, parse).Success? ==> UniqueKeys(LoadTransportAgeData(vage, districts, parse).value, AgeName)
    ensures LoadTransportTypeData(vtype, districts, parse).Success? ==> UniqueKeys(LoadTransportTypeData(vtype, districts, parse).value, TypeName)
  {
    AgeLoaderUniqueNames(vage, districts, parse);
    TypeLoaderUniqueNames(vtype, districts, parse);
  }

  /** The age table names a district once when the district file does. */
  lemma AgeLoaderUniqueNames<G>(vage: seq<AgeRecord>, districts: seq<WktRow<District>>, parse: string -> Result<G, string>)
    requires UniqueKeys(districts, WktName)
    ensures LoadTransportAgeData(vage, districts, parse).Success? ==> UniqueKeys(LoadTransportAgeData(vage, districts, parse).value, AgeName)
  {
    LoadTransportAgeRows(vage, districts, parse);
    var ra := LoadTransportAgeData(vage, districts, parse);
    if ra.Success? {
      assert forall i :: 0 <= i < |ra.value| ==> AgeName(ra.value[i]) == WktName(districts[i]);
    }
  }

  /** The type table names a district once when the district file does. */
  lemma TypeLoaderUniqueNames<G>(vtype: seq<TypeRecord>, districts: seq<WktRow<District>>, parse: string -> Result<G, string>)
    requires UniqueKeys(districts, WktName)
    ensures LoadTransportTypeData(vtype, districts, parse).Success? ==> UniqueKeys(LoadTransportTypeData(vtype, districts, parse).value, TypeName)
  {
    LoadTransportTypeRows(vtype, districts, parse);
    var rt := LoadTransportTypeData(vtype, districts, parse);
    if rt.Success? {
      assert forall i :: 0 <= i < |rt.value| ==> TypeName(rt.value[i]) == WktName(districts[i]);
    }
  }

  // ---- City-wide percentages (lines 201-210) ----

  /** `Series.sum()`: nulls are skipped, and a column of nulls sums to 0. */
  function SumPresent(xs: seq<Option<nat>>): nat
  {
    if xs == [] then 0 else (if xs[0].Some? then xs[0].value else 0) + SumPresent(xs[1..])
  }

  function OldColumn<G>(age: seq<(GeoRow<District, G>, Option<AgeSummaryRow>)>): seq<Option<nat>>
  {
    seq(|age|, i requires 0 <= i < |age| => if age[i].1.Some? then age[i].1.value.vehicles20Any else None)
  }

  function AgeTotalColumn<G>(age: seq<(GeoRow<District, G>, Option<AgeSummaryRow>)>): seq<Option<nat>>
  {
    seq(|age|, i requires 0 <= i < |age| => if age[i].1.Some? then Some(age[i].1.value.totalVehicles) else None)
  }

  function GreenColumn<G>(kind: seq<(GeoRow<District, G>, Option<TypeSummaryRow>)>): seq<Option<nat>>
  {
    seq(|kind|, i requires 0 <= i < |kind| => if kind[i].1.Some? then kind[i].1.value.greenVehicles else None)
  }

  function TypeTotalColumn<G>(kind: seq<(GeoRow<District, G>, Option<TypeSummaryRow>)>): seq<Option<nat>>
  {
    seq(|kind|, i requires 0 <= i < |kind| => if kind[i].1.Some? then Some(kind[i].1.value.totalVehicles) else None)
  }

  /** `pourcentage_vehicules_20_ans`. */
  function CityOldPercentage<G>(age: seq<(GeoRow<District, G>, Option<AgeSummaryRow>)>): Float
  {
    Percent(Some(SumPresent(OldColumn(age))), SumPresent(AgeTotalColumn(age)))
  }

  /** `pourcentage_vehicules_verts`. */
  function CityGreenPercentage<G>(kind: seq<(GeoRow<District, G>, Option<TypeSummaryRow>)>): Float
  {
    Percent(Some(SumPresent(GreenColumn(kind))), SumPresent(TypeTotalColumn(kind)))
  }

  /** Each part at most its row's total: then the column sums keep that order. */
  ghost predicate PartsBelow(parts: seq<Option<nat>>, totals: seq<Option<nat>>)
  {
    |parts| == |totals| && forall i :: 0 <= i < |parts| && parts[i].Some? ==> totals[i].Some? && parts[i].value <= totals[i].value
  }

  lemma {:induction false} SumPresentBelow(parts: seq<Option<nat>>, totals: seq<Option<nat>>)
    requires PartsBelow(parts, totals)
    ensures SumPresent(parts) <= SumPresent(totals)
  {
    if parts != [] {
      assert PartsBelow(parts[1..], totals[1..]) by {
        forall i | 0 <= i < |parts[1..]| && parts[1..][i].Some? ensures totals[1..][i].Some? && parts[1..][i].value <= totals[1..][i].value {
          assert parts[1..][i] == parts[i + 1] && totals[1..][i] == totals[i + 1];
        }
      }
      SumPresentBelow(parts[1..], totals[1..]);
    }
  }

  /** A city-wide ratio of column sums is null when the totals sum to 0, and otherwise lies in [0, 100]. */
  lemma CityPercentageBounds(parts: seq<Option<nat>>, totals: seq<Option<nat>>)
    requires PartsBelow(parts, totals)
    ensures var f := Percent(Some(SumPresent(parts)), SumPresent(totals));
      (f.NaN? <==> SumPresent(totals) == 0) && (f.Finite? ==> 0.0 <= f.value <= 100.0)
  {
    SumPresentBelow(parts, totals);
  }

  /** The share of old vehicles across the city is null or lies in [0, 100]. */
  lemma CityOldPercentageBounds<G>(vage: seq<AgeRecord>, districts: seq<WktRow<District>>, parse: string -> Result<G, string>)
    requires LoadTransportAgeData(vage, districts, parse).Success?
    ensures var f := CityOldPercentage(LoadTransportAgeData(vage, districts, parse).value);
      (f.NaN? <==> SumPresent(AgeTotalColumn(LoadTransportAgeData(vage, districts, parse).value)) == 0)
      && (f.Finite? ==> 0.0 <= f.value <= 100.0)
  {
    var age := LoadTransportAgeData(vage, districts, parse).value;
    LoadTransportAgeRows(vage, districts, parse);
    forall i | 0 <= i < |age| && age[i].1.Some? ensures age[i].1.value.vehicles20Any.Some? ==> age[i].1.value.vehicles20Any.value <= age[i].1.value.totalVehicles {
      AgeRowBounds(age[i].1.value, vage);
    }
    CityPercentageBounds(OldColumn(age), AgeTotalColumn(age));
  }

  /** The share of green vehicles across the city is null or lies in [0, 100]. */
  lemma CityGreenPercentageBounds<G>(vtype: seq<TypeRecord>, districts: seq<WktRow<District>>, parse: string -> Result<G, string>)
    requires LoadTransportTypeData(vtype, districts, parse).Success?
    ensures var f := CityGreenPercentage(LoadTransportTypeData(vtype, districts, parse).value);
      (f.NaN? <==> SumPresent(TypeTotalColumn(LoadTransportTypeData(vtype, districts, parse).value)) == 0)
      && (f.Finite? ==> 0.0 <= f.value <= 100.0)
  {
    var kind := LoadTransportTypeData(vtype, districts, parse).value;
    LoadTransportTypeRows(vtype, districts, parse);
    forall i | 0 <= i < |kind| && kind[i].1.Some? ensures kind[i].1.value.greenVehicles.Some? ==> kind[i].1.value.greenVehicles.value <= kind[i].1.value.totalVehicles {
      TypeRowBounds(kind[i].1.value, vtype);
    }
    CityPercentageBounds(GreenColumn(kind), TypeTotalColumn(kind));
  }
}
