/**
 * `trees_df`: the tree records of the street-tree file (read twice) and the
 * zone-tree file are counted per (`codi_districte`, `nom_districte`) pair,
 * sorted by count, a TOTAL row is appended, and the rows are joined with a
 * fixed table of district areas to get the number of trees per km².
 */
module Trees {
  import opened Wrappers
  import opened Tables

  /** A tree record's two key columns; either may be empty in the file. */
  datatype TreeRecord = TreeRecord(code: Option<string>, district: Option<string>)

  /** A (`codi_districte`, `nom_districte`) pair. */
  datatype Pair = Pair(code: string, district: string)

  /** A row of `trees_per_district` at line 22: `Code`, `District`, `Number of Trees`. */
  datatype PairCount = PairCount(code: string, district: string, count: nat)

  /** A row of `district_areas_df`: `District`, `Area` in km². */
  datatype DistrictArea = DistrictArea(district: string, area: real)

  /** A row of the result: `Code`, `District`, `Number of Trees`, `Area`, `Trees per km²`. */
  datatype TreeRow = TreeRow(code: string, district: string, count: nat, area: real, density: real)

  const TotalName: string := "TOTAL"
  const TotalCode: string := "0"
  const TotalArea: real := 101.36

  /** The ten districts of the city and TOTAL, with their areas. */
  const DistrictAreas: seq<DistrictArea> := [
    DistrictArea("CIUTAT VELLA", 4.11), DistrictArea("EIXAMPLE", 7.46), DistrictArea("SANTS - MONTJUÏC", 22.68),
    DistrictArea("LES CORTS", 6.02), DistrictArea("SARRIÀ - SANT GERVASI", 19.91), DistrictArea("GRÀCIA", 4.19),
    DistrictArea("HORTA - GUINARDÓ", 11.96), DistrictArea("NOU BARRIS", 8.05), DistrictArea("SANT ANDREU", 6.59),
    DistrictArea("SANT MARTÍ", 10.39), DistrictArea(TotalName, TotalArea)]

  function AreaDistrict(a: DistrictArea): string { a.district }
  function CountDistrict(c: PairCount): string { c.district }
  function PairOfCount(c: PairCount): Pair { Pair(c.code, c.district) }

  /** The area table names each district once, every area is positive, and the ten districts add up to TOTAL. */
  lemma DistrictAreasFacts()
    ensures UniqueKeys(DistrictAreas, AreaDistrict)
    ensures forall i :: 0 <= i < |DistrictAreas| ==> DistrictAreas[i].area > 0.0
    ensures DistrictAreas[|DistrictAreas| - 1] == DistrictArea(TotalName, TotalArea)
    ensures DistrictAreas[0].area + DistrictAreas[1].area + DistrictAreas[2].area + DistrictAreas[3].area
      + DistrictAreas[4].area + DistrictAreas[5].area + DistrictAreas[6].area + DistrictAreas[7].area
      + DistrictAreas[8].area + DistrictAreas[9].area == TotalArea
  {
  }

  // ---- Counting pairs ----

  /** The pairs of the records whose code and name are both present, in order (value_counts skips the others). */
  function PairsOf(rs: seq<TreeRecord>): seq<Pair>
  {
    if rs == [] then []
    else
      var head := if rs[0].code.Some? && rs[0].district.Some? then [Pair(rs[0].code.value, rs[0].district.value)] else [];
      head + PairsOf(rs[1..])
  }

  function Occurrences(ps: seq<Pair>, p: Pair): nat
  {
    if ps == [] then 0 else (if ps[0] == p then 1 else 0) + Occurrences(ps[1..], p)
  }

  /** The number of records carrying pair `p`. */
  function CountPair(rs: seq<TreeRecord>, p: Pair): nat
  {
    Occurrences(PairsOf(rs), p)
  }

  lemma {:induction false} PairsOfAppend(a: seq<TreeRecord>, b: seq<TreeRecord>)
    ensures PairsOf(a + b) == PairsOf(a) + PairsOf(b)
  {
    if a != [] {
      assert (a + b)[1..] == a[1..] + b;
      PairsOfAppend(a[1..], b);
    } else {
      assert a + b == b;
    }
  }

  lemma {:induction false} OccurrencesAppend(a: seq<Pair>, b: seq<Pair>, p: Pair)
    ensures Occurrences(a + b, p) == Occurrences(a, p) + Occurrences(b, p)
  {
    if a != [] {
      assert (a + b)[1..] == a[1..] + b;
      OccurrencesAppend(a[1..], b, p);
    } else {
      assert a + b == b;
    }
  }

  /** Counting over concatenated tables adds the counts. */
  lemma CountPairAppend(a: seq<TreeRecord>, b: seq<TreeRecord>, p: Pair)
    ensures CountPair(a + b, p) == CountPair(a, p) + CountPair(b, p)
  {
    PairsOfAppend(a, b);
    OccurrencesAppend(PairsOf(a), PairsOf(b), p);
  }

  lemma {:induction false} OccurrencesPositive(ps: seq<Pair>, p: Pair)
    ensures Occurrences(ps, p) > 0 <==> p in ps
  {
    if ps != [] {
      OccurrencesPositive(ps[1..], p);
      assert ps == [ps[0]] + ps[1..];
    }
  }

  /** When every record has both keys, each contributes one pair. */
  lemma {:induction false} PairsOfComplete(rs: seq<TreeRecord>)
    requires forall i :: 0 <= i < |rs| ==> rs[i].code.Some? && rs[i].district.Some?
    ensures |PairsOf(rs)| == |rs|
  {
    if rs != [] {
      PairsOfComplete(rs[1..]);
    }
  }

  /** `ps` without the occurrences of `x`. */
  function Remove(ps: seq<Pair>, x: Pair): (r: seq<Pair>)
    ensures |r| + Occurrences(ps, x) == |ps|
    ensures forall p :: p != x ==> Occurrences(r, p) == Occurrences(ps, p)
    ensures forall p :: p in r <==> p in ps && p != x
  {
    if ps == [] then []
    else
      var head := if ps[0] == x then [] else [ps[0]];
      var rest := Remove(ps[1..], x);
      assert ps == [ps[0]] + ps[1..];
      assert forall p :: Occurrences(head + rest, p) == Occurrences(head, p) + Occurrences(rest, p) by {
        forall p ensures Occurrences(head + rest, p) == Occurrences(head, p) + Occurrences(rest, p) {
          OccurrencesAppend(head, rest, p);
        }
      }
      head + rest
  }

  /** The distinct pairs of `ps`, in order of first appearance. */
  function Dedup(ps: seq<Pair>): (d: seq<Pair>)
    ensures forall i, j :: 0 <= i < j < |d| ==> d[i] != d[j]
    ensures forall p :: p in d <==> p in ps
    decreases |ps|
  {
    if ps == [] then []
    else
      var rest := Dedup(Remove(ps[1..], ps[0]));
      assert ps[0] !in rest;
      assert forall p :: p in ps <==> p == ps[0] || p in ps[1..] by {
        assert ps == [ps[0]] + ps[1..];
      }
      assert forall i :: 1 <= i < |[ps[0]] + rest| ==> ([ps[0]] + rest)[i] == rest[i - 1];
      [ps[0]] + rest
  }

  function CountedOver(qs: seq<Pair>, ps: seq<Pair>): seq<PairCount>
  {
    if qs == [] then [] else [PairCount(qs[0].code, qs[0].district, Occurrences(ps, qs[0]))] + CountedOver(qs[1..], ps)
  }

  function SumCounts(cs: seq<PairCount>): nat
  {
    if cs == [] then 0 else cs[0].count + SumCounts(cs[1..])
  }

  function SumOccurrences(qs: seq<Pair>, ps: seq<Pair>): nat
  {
    if qs == [] then 0 else Occurrences(ps, qs[0]) + SumOccurrences(qs[1..], ps)
  }

  lemma {:induction false} SumOccurrencesAgree(qs: seq<Pair>, ps1: seq<Pair>, ps2: seq<Pair>)
    requires forall q :: q in qs ==> Occurrences(ps1, q) == Occurrences(ps2, q)
    ensures SumOccurrences(qs, ps1) == SumOccurrences(qs, ps2)
  {
    if qs != [] {
      assert qs[0] in qs;
      assert forall q :: q in qs[1..] ==> q in qs;
      SumOccurrencesAgree(qs[1..], ps1, ps2);
    }
  }

  /** A pair other than the head occurs as often in the list as in its tail with the head removed. */
  lemma OccurrencesAfterRemove(ps: seq<Pair>, q: Pair)
    requires ps != [] && q != ps[0]
    ensures Occurrences(ps, q) == Occurrences(Remove(ps[1..], ps[0]), q)
  {
  }

  /** The occurrences of the distinct pairs add up to the number of pairs. */
  lemma {:induction false} SumOverDedup(ps: seq<Pair>)
    ensures SumOccurrences(Dedup(ps), ps) == |ps|
    decreases |ps|
  {
    if ps != [] {
      var x := ps[0];
      var rest := ps[1..];
      var r := Remove(rest, x);
      var d := Dedup(r);
      assert Dedup(ps) == [x] + d;
      assert SumOccurrences([x] + d, ps) == Occurrences(ps, x) + SumOccurrences(d, ps) by {
        assert ([x] + d)[1..] == d;
      }
      SumOverDedup(r);
      forall q | q in d ensures Occurrences(ps, q) == Occurrences(r, q) {
        assert q in r;
        OccurrencesAfterRemove(ps, q);
      }
      SumOccurrencesAgree(d, ps, r);
      assert Occurrences(ps, x) == 1 + Occurrences(rest, x);
    }
  }

  lemma {:induction false} SumCountedOver(qs: seq<Pair>, ps: seq<Pair>)
    ensures SumCounts(CountedOver(qs, ps)) == SumOccurrences(qs, ps)
  {
    if qs != [] {
      SumCountedOver(qs[1..], ps);
    }
  }

  lemma {:induction false} CountedOverRows(qs: seq<Pair>, ps: seq<Pair>)
    ensures |CountedOver(qs, ps)| == |qs|
    ensures forall i :: 0 <= i < |qs| ==> CountedOver(qs, ps)[i] == PairCount(qs[i].code, qs[i].district, Occurrences(ps, qs[i]))
  {
    if qs != [] {
      CountedOverRows(qs[1..], ps);
    }
  }

  // ---- Sorting by count ----

  ghost predicate SortedDesc(cs: seq<PairCount>)
  {
    forall i, j :: 0 <= i < j < |cs| ==> cs[i].count >= cs[j].count
  }

  /** No row of `cs` counts more than `k`. */
  ghost predicate AtMost(cs: seq<PairCount>, k: nat)
  {
    forall i :: 0 <= i < |cs| ==> cs[i].count <= k
  }

  /** A row counting at least as much as every row of a sorted list can go in front of it. */
  lemma ConsSorted(x: PairCount, cs: seq<PairCount>)
    requires SortedDesc(cs) && AtMost(cs, x.count)
    ensures SortedDesc([x] + cs)
  {
    var r := [x] + cs;
    forall i, j | 0 <= i < j < |r| ensures r[i].count >= r[j].count {
      assert r[j] == cs[j - 1];
      if i > 0 { assert r[i] == cs[i - 1]; }
    }
  }

  /** The rows of a permutation of `cs` and `c` count no more than the largest of them. */
  lemma PermutedAtMost(rest: seq<PairCount>, cs: seq<PairCount>, c: PairCount, k: nat)
    requires multiset(rest) == multiset(cs) + multiset{c}
    requires AtMost(cs, k) && c.count <= k
    ensures AtMost(rest, k)
  {
    forall i | 0 <= i < |rest| ensures rest[i].count <= k {
      assert rest[i] in multiset(rest);
      if rest[i] != c {
        assert rest[i] in multiset(cs);
        var j :| 0 <= j < |cs| && cs[j] == rest[i];
      }
    }
  }

  /** A row counting at least as much as the head of a sorted list goes in front of it. */
  lemma InsertAtFront(c: PairCount, cs: seq<PairCount>)
    requires SortedDesc(cs) && (cs == [] || c.count >= cs[0].count)
    ensures SortedDesc([c] + cs)
    ensures SumCounts([c] + cs) == c.count + SumCounts(cs)
  {
    assert ([c] + cs)[1..] == cs;
    assert AtMost(cs, c.count);
    ConsSorted(c, cs);
  }

  /** Keeping the head of a sorted list in front of `c` inserted into its tail. */
  lemma InsertBehind(h: PairCount, tail: seq<PairCount>, c: PairCount, rest: seq<PairCount>)
    requires SortedDesc([h] + tail) && c.count < h.count
    requires SortedDesc(rest) && multiset(rest) == multiset(tail) + multiset{c}
    requires SumCounts(rest) == c.count + SumCounts(tail)
    ensures SortedDesc([h] + rest)
    ensures multiset([h] + rest) == multiset([h] + tail) + multiset{c}
    ensures SumCounts([h] + rest) == c.count + SumCounts([h] + tail)
  {
    var cs := [h] + tail;
    assert AtMost(tail, h.count) by {
      forall i | 0 <= i < |tail| ensures tail[i].count <= h.count {
        assert cs[0] == h && cs[i + 1] == tail[i];
      }
    }
    PermutedAtMost(rest, tail, c, h.count);
    ConsSorted(h, rest);
    assert cs[1..] == tail;
    assert ([h] + rest)[1..] == rest;
  }

  /** Insert `c` before the first row whose count does not exceed its own. */
  function Insert(c: PairCount, cs: seq<PairCount>): (r: seq<PairCount>)
    requires SortedDesc(cs)
    ensures SortedDesc(r)
    ensures multiset(r) == multiset(cs) + multiset{c}
    ensures SumCounts(r) == c.count + SumCounts(cs)
  {
    if cs == [] || c.count >= cs[0].count then
      InsertAtFront(c, cs);
      [c] + cs
    else
      var tail := cs[1..];
      var rest := Insert(c, tail);
      assert cs == [cs[0]] + tail;
      InsertBehind(cs[0], tail, c, rest);
      [cs[0]] + rest
  }

  /** `value_counts(sort=1)`'s order: by count, largest first; rows of equal count keep their order. */
  function SortDesc(cs: seq<PairCount>): (r: seq<PairCount>)
    ensures SortedDesc(r)
    ensures multiset(r) == multiset(cs)
    ensures SumCounts(r) == SumCounts(cs)
  {
    if cs == [] then []
    else
      assert cs == [cs[0]] + cs[1..];
      assert (cs)[1..] == cs[1..];
      Insert(cs[0], SortDesc(cs[1..]))
  }

  /** `all_trees_df[['codi_districte', 'nom_districte']].value_counts(sort=1)`. */
  function ValueCounts(rs: seq<TreeRecord>): seq<PairCount>
  {
    var ps := PairsOf(rs);
    SortDesc(CountedOver(Dedup(ps), ps))
  }

  lemma MultisetDistinct(a: seq<PairCount>, b: seq<PairCount>)
    requires multiset(a) == multiset(b)
    requires forall i, j :: 0 <= i < j < |a| ==> PairOfCount(a[i]) != PairOfCount(a[j])
    ensures forall i, j :: 0 <= i < j < |b| ==> PairOfCount(b[i]) != PairOfCount(b[j])
  {
    forall i, j | 0 <= i < j < |b| ensures PairOfCount(b[i]) != PairOfCount(b[j]) {
      assert b[i] in multiset(a) && b[j] in multiset(a);
      var i' :| 0 <= i' < |a| && a[i'] == b[i];
      var j' :| 0 <= j' < |a| && a[j'] == b[j];
      DistinctOnce(a, i');
      assert b == b[..j] + [b[j]] + b[j + 1..];
      assert b[i] in b[..j];
      assert multiset(b)[b[i]] >= multiset(b[..j])[b[i]] + multiset([b[j]])[b[i]];
      assert b[i] != b[j];
      assert i' != j';
      if i' < j' {
        assert PairOfCount(a[i']) != PairOfCount(a[j']);
      } else {
        assert PairOfCount(a[j']) != PairOfCount(a[i']);
      }
    }
  }

  lemma {:induction false} DistinctOnce(a: seq<PairCount>, k: nat)
    requires k < |a|
    requires forall i, j :: 0 <= i < j < |a| ==> PairOfCount(a[i]) != PairOfCount(a[j])
    ensures multiset(a)[a[k]] == 1
  {
    assert a == a[..k] + [a[k]] + a[k + 1..];
    assert a[k] !in a[..k] by {
      forall i | 0 <= i < |a[..k]| ensures a[..k][i] != a[k] {
        assert a[..k][i] == a[i];
      }
    }
    var tail := a[k + 1..];
    assert a[k] !in tail by {
      forall i | 0 <= i < |tail| ensures tail[i] != a[k] {
        assert tail[i] == a[k + 1 + i];
      }
    }
  }

  /** Row `c` counts pair `PairOfCount(c)`, which some complete record of `rs` carries. */
  ghost predicate CountsOf(c: PairCount, rs: seq<TreeRecord>)
  {
    c.count == CountPair(rs, PairOfCount(c)) > 0
  }

  ghost predicate DistinctPairs(cs: seq<PairCount>)
  {
    forall i, j :: 0 <= i < j < |cs| ==> PairOfCount(cs[i]) != PairOfCount(cs[j])
  }

  /** Some row of `cs` counts pair `p`. */
  ghost predicate Lists(cs: seq<PairCount>, p: Pair)
  {
    exists i :: 0 <= i < |cs| && PairOfCount(cs[i]) == p
  }

  lemma CountedFacts(rs: seq<TreeRecord>)
    ensures var ps := PairsOf(rs);
      var counted := CountedOver(Dedup(ps), ps);
      DistinctPairs(counted)
      && (forall i :: 0 <= i < |counted| ==> CountsOf(counted[i], rs))
      && (forall p :: CountPair(rs, p) > 0 ==> Lists(counted, p))
      && SumCounts(counted) == |ps|
  {
    var ps := PairsOf(rs);
    var d := Dedup(ps);
    var counted := CountedOver(d, ps);
    CountedOverRows(d, ps);
    SumCountedOver(d, ps);
    SumOverDedup(ps);
    assert forall i :: 0 <= i < |counted| ==> PairOfCount(counted[i]) == d[i];
    forall i | 0 <= i < |counted| ensures CountsOf(counted[i], rs) {
      OccurrencesPositive(ps, d[i]);
    }
    forall p | CountPair(rs, p) > 0 ensures Lists(counted, p) {
      OccurrencesPositive(ps, p);
      var k :| 0 <= k < |d| && d[k] == p;
      assert PairOfCount(counted[k]) == p;
    }
  }

  lemma PermutedFacts(a: seq<PairCount>, b: seq<PairCount>, rs: seq<TreeRecord>)
    requires multiset(a) == multiset(b)
    requires forall i :: 0 <= i < |a| ==> CountsOf(a[i], rs)
    ensures forall i :: 0 <= i < |b| ==> CountsOf(b[i], rs)
    ensures forall p :: Lists(a, p) ==> Lists(b, p)
  {
    forall i | 0 <= i < |b| ensures CountsOf(b[i], rs) {
      assert b[i] in multiset(a);
      var k :| 0 <= k < |a| && a[k] == b[i];
    }
    forall p | Lists(a, p) ensures Lists(b, p) {
      var k :| 0 <= k < |a| && PairOfCount(a[k]) == p;
      assert a[k] in multiset(b);
      var i :| 0 <= i < |b| && b[i] == a[k];
    }
  }

  /**
   * The value counts list each pair carried by some complete record once,
   * with the number of records carrying it, largest count first; the counts
   * add up to the number of complete records.
   */
  lemma ValueCountsFacts(rs: seq<TreeRecord>)
    ensures SortedDesc(ValueCounts(rs))
    ensures DistinctPairs(ValueCounts(rs))
    ensures forall i :: 0 <= i < |ValueCounts(rs)| ==> CountsOf(ValueCounts(rs)[i], rs)
    ensures forall p :: CountPair(rs, p) > 0 ==> Lists(ValueCounts(rs), p)
    ensures SumCounts(ValueCounts(rs)) == |PairsOf(rs)|
  {
    var ps := PairsOf(rs);
    var counted := CountedOver(Dedup(ps), ps);
    CountedFacts(rs);
    MultisetDistinct(counted, ValueCounts(rs));
    PermutedFacts(counted, ValueCounts(rs), rs);
  }

  // ---- The area join and the density column ----

  /** The count rows whose district has a row in `areas`, in order. */
  function Kept(cs: seq<PairCount>, areas: seq<DistrictArea>): seq<PairCount>
  {
    Semijoin(cs, CountDistrict, areas, AreaDistrict)
  }

  /** `areas` names each district once and ends with TOTAL's row. */
  ghost predicate AreaTable(areas: seq<DistrictArea>)
  {
    UniqueKeys(areas, AreaDistrict) && |areas| > 0 && areas[|areas| - 1] == DistrictArea(TotalName, TotalArea)
  }

  /** Row `m` pairs a count row with the area row of its district. */
  ghost predicate AreaOfRow(m: (PairCount, DistrictArea), areas: seq<DistrictArea>)
  {
    m.1 in areas && m.1.district == m.0.district
  }

  /**
   * Line 33: joining the counts and the appended TOTAL row with the area
   * table keeps, in order, the rows whose district the table names, each
   * with its area; TOTAL comes last with area 101.36.
   */
  lemma AreaJoinRows(cs: seq<PairCount>, n: nat, areas: seq<DistrictArea>)
    requires AreaTable(areas)
    ensures var merged := InnerJoin(cs + [PairCount(TotalCode, TotalName, n)], CountDistrict, areas, AreaDistrict);
      |merged| == |Kept(cs, areas)| + 1
      && merged[|Kept(cs, areas)|] == (PairCount(TotalCode, TotalName, n), DistrictArea(TotalName, TotalArea))
      && (forall i :: 0 <= i < |merged| ==> AreaOfRow(merged[i], areas))
      && forall i :: 0 <= i < |Kept(cs, areas)| ==> merged[i].0 == Kept(cs, areas)[i]
  {
    var total := PairCount(TotalCode, TotalName, n);
    var last := areas[|areas| - 1];
    InnerJoinUnique(cs + [total], CountDistrict, areas, AreaDistrict);
    SemijoinAppend(cs, [total], CountDistrict, areas, AreaDistrict);
    assert AreaDistrict(last) == TotalName;
    assert Semijoin([total][1..], CountDistrict, areas, AreaDistrict) == [];
    assert Semijoin([total], CountDistrict, areas, AreaDistrict) == [total];
    FindUnique(areas, AreaDistrict, last);
  }

  /** Dropping rows keeps the descending order and the distinct pairs. */
  lemma KeptOrder(vc: seq<PairCount>, areas: seq<DistrictArea>)
    requires SortedDesc(vc) && DistinctPairs(vc)
    ensures SortedDesc(Kept(vc, areas)) && DistinctPairs(Kept(vc, areas))
  {
    var kept := Kept(vc, areas);
    var byCount := (x: PairCount, y: PairCount) => x.count >= y.count;
    var byPair := (x: PairCount, y: PairCount) => PairOfCount(x) != PairOfCount(y);
    assert Ordered(vc, byCount) by {
      forall i, j | 0 <= i < j < |vc| ensures byCount(vc[i], vc[j]) {
        assert vc[i].count >= vc[j].count;
      }
    }
    assert Ordered(vc, byPair) by {
      forall i, j | 0 <= i < j < |vc| ensures byPair(vc[i], vc[j]) {
        assert PairOfCount(vc[i]) != PairOfCount(vc[j]);
      }
    }
    SemijoinKeepsOrder(vc, CountDistrict, areas, AreaDistrict, byCount);
    SemijoinKeepsOrder(vc, CountDistrict, areas, AreaDistrict, byPair);
    forall i, j | 0 <= i < j < |kept| ensures kept[i].count >= kept[j].count {
      assert byCount(kept[i], kept[j]);
    }
    forall i, j | 0 <= i < j < |kept| ensures PairOfCount(kept[i]) != PairOfCount(kept[j]) {
      assert byPair(kept[i], kept[j]);
    }
  }

  /** Every kept row is still the count of its pair. */
  lemma KeptCounts(vc: seq<PairCount>, rs: seq<TreeRecord>, areas: seq<DistrictArea>)
    requires forall k :: 0 <= k < |vc| ==> CountsOf(vc[k], rs)
    ensures forall i :: 0 <= i < |Kept(vc, areas)| ==> CountsOf(Kept(vc, areas)[i], rs)
  {
    var kept := Kept(vc, areas);
    forall i | 0 <= i < |kept| ensures CountsOf(kept[i], rs) {
      var k :| 0 <= k < |vc| && vc[k] == kept[i];
    }
  }

  /** A listed pair whose district has an area is still listed. */
  lemma KeptLists(vc: seq<PairCount>, areas: seq<DistrictArea>, p: Pair)
    requires Lists(vc, p) && HasKey(areas, AreaDistrict, p.district)
    ensures Lists(Kept(vc, areas), p)
  {
    var kept := Kept(vc, areas);
    var k :| 0 <= k < |vc| && PairOfCount(vc[k]) == p;
    SemijoinKeeps(vc, CountDistrict, areas, AreaDistrict);
    assert vc[k] in kept;
    var i :| 0 <= i < |kept| && kept[i] == vc[k];
  }

  /** The kept count rows stay sorted, distinct and correct, and keep every pair whose district has an area. */
  lemma KeptFacts(rs: seq<TreeRecord>, areas: seq<DistrictArea>)
    ensures SortedDesc(Kept(ValueCounts(rs), areas))
    ensures DistinctPairs(Kept(ValueCounts(rs), areas))
    ensures forall i :: 0 <= i < |Kept(ValueCounts(rs), areas)| ==> CountsOf(Kept(ValueCounts(rs), areas)[i], rs)
    ensures forall p :: CountPair(rs, p) > 0 && HasKey(areas, AreaDistrict, p.district) ==> Lists(Kept(ValueCounts(rs), areas), p)
  {
    var vc := ValueCounts(rs);
    ValueCountsFacts(rs);
    KeptOrder(vc, areas);
    KeptCounts(vc, rs, areas);
    forall p | CountPair(rs, p) > 0 && HasKey(areas, AreaDistrict, p.district) ensures Lists(Kept(vc, areas), p) {
      KeptLists(vc, areas, p);
    }
  }

  /** Trees counted in the concatenation of the street-tree table twice and the zone-tree table. */
  lemma CountAll(streetTrees: seq<TreeRecord>, zoneTrees: seq<TreeRecord>, p: Pair)
    ensures CountPair(streetTrees + streetTrees + zoneTrees, p) == 2 * CountPair(streetTrees, p) + CountPair(zoneTrees, p)
  {
    CountPairAppend(streetTrees + streetTrees, zoneTrees, p);
    CountPairAppend(streetTrees, streetTrees, p);
  }

  function PairOfRow(r: TreeRow): Pair { Pair(r.code, r.district) }

  /** The count rows of both files, street trees twice, with TOTAL appended and joined with the area table. */
  function Joined(streetTrees: seq<TreeRecord>, zoneTrees: seq<TreeRecord>): seq<(PairCount, DistrictArea)>
  {
    var all := streetTrees + streetTrees + zoneTrees;
    InnerJoin(ValueCounts(all) + [PairCount(TotalCode, TotalName, |all|)], CountDistrict, DistrictAreas, AreaDistrict)
  }

  /** Every joined row carries the area of its own district, and that area is positive. */
  lemma JoinedAreas(streetTrees: seq<TreeRecord>, zoneTrees: seq<TreeRecord>)
    ensures forall i :: 0 <= i < |Joined(streetTrees, zoneTrees)| ==>
      AreaOfRow(Joined(streetTrees, zoneTrees)[i], DistrictAreas) && Joined(streetTrees, zoneTrees)[i].1.area > 0.0
  {
    var all := streetTrees + streetTrees + zoneTrees;
    DistrictAreasFacts();
    AreaJoinRows(ValueCounts(all), |all|, DistrictAreas);
  }

  /** Line 34: a joined row with its density, trees per square kilometre. */
  function WithDensity(m: (PairCount, DistrictArea)): TreeRow
    requires m.1.area > 0.0
  {
    TreeRow(m.0.code, m.0.district, m.0.count, m.1.area, m.0.count as real / m.1.area)
  }

  /**
   * `trees_df()`, given the rows of the street-tree and zone-tree files. The
   * street-tree file is read twice (as "park" and "street" trees), so every
   * street tree counts twice. The district rows come sorted by count, each
   * pair once, and are followed by TOTAL, which counts every concatenated
   * record; only rows whose district has an area are kept, and each gets its
   * density.
   */
  function TreesDf(streetTrees: seq<TreeRecord>, zoneTrees: seq<TreeRecord>): (table: seq<TreeRow>)
    ensures forall i :: 0 <= i < |table| ==>
      (DistrictArea(table[i].district, table[i].area) in DistrictAreas && table[i].area > 0.0
       && table[i].density == table[i].count as real / table[i].area)
  {
    var merged := Joined(streetTrees, zoneTrees);
    JoinedAreas(streetTrees, zoneTrees);
    seq(|merged|, i requires 0 <= i < |merged| => WithDensity(merged[i]))
  }

  /** The table lists the kept count rows in order, then TOTAL with every concatenated record and area 101.36. */
  lemma TreesDfRows(streetTrees: seq<TreeRecord>, zoneTrees: seq<TreeRecord>)
    ensures var kept := Kept(ValueCounts(streetTrees + streetTrees + zoneTrees), DistrictAreas);
      var table := TreesDf(streetTrees, zoneTrees);
      |table| == |kept| + 1
      && (forall i :: 0 <= i < |kept| ==> PairOfRow(table[i]) == PairOfCount(kept[i]) && table[i].count == kept[i].count)
      && table[|kept|] == TreeRow(TotalCode, TotalName, |streetTrees + streetTrees + zoneTrees|, TotalArea,
        |streetTrees + streetTrees + zoneTrees| as real / TotalArea)
  {
    var all := streetTrees + streetTrees + zoneTrees;
    DistrictAreasFacts();
    AreaJoinRows(ValueCounts(all), |all|, DistrictAreas);
  }

  /** Lines 30-33: TOTAL closes the table with code '0', every record of both files (street trees twice) and area 101.36. */
  lemma TreesDfTotal(streetTrees: seq<TreeRecord>, zoneTrees: seq<TreeRecord>)
    ensures var table := TreesDf(streetTrees, zoneTrees);
      var n := 2 * |streetTrees| + |zoneTrees|;
      |table| >= 1 && table[|table| - 1] == TreeRow(TotalCode, TotalName, n, TotalArea, n as real / TotalArea)
  {
    TreesDfRows(streetTrees, zoneTrees);
  }

  /** Lines 14-28: each district row counts its pair twice over the street trees and once over the zone trees. */
  lemma TreesDfCounts(streetTrees: seq<TreeRecord>, zoneTrees: seq<TreeRecord>)
    ensures var table := TreesDf(streetTrees, zoneTrees);
      forall i :: 0 <= i < |table| - 1 ==>
        table[i].count == 2 * CountPair(streetTrees, PairOfRow(table[i])) + CountPair(zoneTrees, PairOfRow(table[i])) > 0
  {
    var all := streetTrees + streetTrees + zoneTrees;
    var table := TreesDf(streetTrees, zoneTrees);
    var kept := Kept(ValueCounts(all), DistrictAreas);
    TreesDfRows(streetTrees, zoneTrees);
    KeptFacts(all, DistrictAreas);
    forall i | 0 <= i < |table| - 1
      ensures table[i].count == 2 * CountPair(streetTrees, PairOfRow(table[i])) + CountPair(zoneTrees, PairOfRow(table[i])) > 0
    {
      assert CountsOf(kept[i], all);
      CountAll(streetTrees, zoneTrees, PairOfRow(table[i]));
    }
  }

  /** Line 28: the district rows come in descending order of count, one per pair. */
  lemma TreesDfOrder(streetTrees: seq<TreeRecord>, zoneTrees: seq<TreeRecord>)
    ensures var table := TreesDf(streetTrees, zoneTrees);
      forall i, j :: 0 <= i < j < |table| - 1 ==> table[i].count >= table[j].count && PairOfRow(table[i]) != PairOfRow(table[j])
  {
    var all := streetTrees + streetTrees + zoneTrees;
    var table := TreesDf(streetTrees, zoneTrees);
    var kept := Kept(ValueCounts(all), DistrictAreas);
    TreesDfRows(streetTrees, zoneTrees);
    KeptFacts(all, DistrictAreas);
    forall i, j | 0 <= i < j < |table| - 1 ensures table[i].count >= table[j].count && PairOfRow(table[i]) != PairOfRow(table[j]) {
      assert kept[i].count >= kept[j].count && PairOfCount(kept[i]) != PairOfCount(kept[j]);
    }
  }

  /** Every pair with a tree in either file whose district the area table names has a row. */
  lemma TreesDfCovers(streetTrees: seq<TreeRecord>, zoneTrees: seq<TreeRecord>, p: Pair)
    requires CountPair(streetTrees + zoneTrees, p) > 0 && HasKey(DistrictAreas, AreaDistrict, p.district)
    ensures var table := TreesDf(streetTrees, zoneTrees);
      exists i :: 0 <= i < |table| - 1 && PairOfRow(table[i]) == p
  {
    var all := streetTrees + streetTrees + zoneTrees;
    var table := TreesDf(streetTrees, zoneTrees);
    var kept := Kept(ValueCounts(all), DistrictAreas);
    TreesDfRows(streetTrees, zoneTrees);
    KeptFacts(all, DistrictAreas);
    CountPairAppend(streetTrees, zoneTrees, p);
    CountAll(streetTrees, zoneTrees, p);
    assert Lists(kept, p);
    var i :| 0 <= i < |kept| && PairOfCount(kept[i]) == p;
    assert PairOfRow(table[i]) == p;
  }

  /**
   * When every record has both keys, TOTAL's count is the sum of the counts
   * value_counts produced, before the area join drops any district.
   */
  lemma TotalIsSumOfCounts(streetTrees: seq<TreeRecord>, zoneTrees: seq<TreeRecord>)
    requires forall i :: 0 <= i < |streetTrees| ==> streetTrees[i].code.Some? && streetTrees[i].district.Some?
    requires forall i :: 0 <= i < |zoneTrees| ==> zoneTrees[i].code.Some? && zoneTrees[i].district.Some?
    ensures SumCounts(ValueCounts(streetTrees + streetTrees + zoneTrees)) == 2 * |streetTrees| + |zoneTrees|
  {
    var all := streetTrees + streetTrees + zoneTrees;
    ValueCountsFacts(all);
    PairsOfComplete(all);
  }
}
