/**
 * The relational operations the pipeline applies to its tables: boolean-mask
 * selection, `groupby(key)[col].sum()`, and `merge(..., on=key)` in its `left`
 * and `inner` forms. A table is a sequence of rows; a key is a string column,
 * given as a function from a row to that column's value. String keys match
 * exactly: case, accents and surrounding spaces all count.
 */
module Tables {
  import opened Wrappers

  /** No two rows of `rs` share a key. */
  ghost predicate UniqueKeys<R>(rs: seq<R>, key: R -> string)
  {
    forall i, j :: 0 <= i < j < |rs| ==> key(rs[i]) != key(rs[j])
  }

  /** Some row of `rs` has key `k`. */
  predicate HasKey<R>(rs: seq<R>, key: R -> string, k: string)
  {
    exists i :: 0 <= i < |rs| && key(rs[i]) == k
  }

  /** The rows of `rs` for which `p` holds, in their order: `df[mask]`. */
  function Filter<R>(rs: seq<R>, p: R -> bool): (out: seq<R>)
    ensures |out| <= |rs|
    ensures forall i :: 0 <= i < |out| ==> out[i] in rs && p(out[i])
    ensures forall i :: 0 <= i < |rs| && p(rs[i]) ==> rs[i] in out
  {
    if rs == [] then [] else (if p(rs[0]) then [rs[0]] else []) + Filter(rs[1..], p)
  }

  /** The sum of `val` over the rows of `rs` whose key is `k`. */
  function SumOf<R>(rs: seq<R>, key: R -> string, k: string, val: R -> nat): nat
  {
    if rs == [] then 0
    else (if key(rs[0]) == k then val(rs[0]) else 0) + SumOf(rs[1..], key, k, val)
  }

  /** Restricting the rows can only lower a group's sum of non-negative values. */
  lemma {:induction false} FilterSumOf<R>(rs: seq<R>, p: R -> bool, key: R -> string, k: string, val: R -> nat)
    ensures SumOf(Filter(rs, p), key, k, val) <= SumOf(rs, key, k, val)
  {
    if rs != [] {
      FilterSumOf(rs[1..], p, key, k, val);
      assert Filter(rs, p) == (if p(rs[0]) then [rs[0]] else []) + Filter(rs[1..], p);
      if p(rs[0]) {
        assert Filter(rs, p)[1..] == Filter(rs[1..], p);
      } else {
        assert Filter(rs, p) == Filter(rs[1..], p);
      }
    }
  }

  /** `df[mask]` keeps every copy of a selected row and no copy of the others. */
  lemma {:induction false} FilterCount<R>(rs: seq<R>, p: R -> bool, x: R)
    ensures multiset(Filter(rs, p))[x] == if p(x) then multiset(rs)[x] else 0
  {
    if rs != [] {
      FilterCount(rs[1..], p, x);
      assert rs == [rs[0]] + rs[1..];
    }
  }

  /** `df[mask]` keeps the rows in their order: selecting from two tables one after the other is selecting from each. */
  lemma {:induction false} FilterAppend<R>(a: seq<R>, b: seq<R>, p: R -> bool)
    ensures Filter(a + b, p) == Filter(a, p) + Filter(b, p)
  {
    if a == [] {
      assert a + b == b;
    } else {
      assert (a + b)[0] == a[0] && (a + b)[1..] == a[1..] + b;
      FilterAppend(a[1..], b, p);
    }
  }

  /** A group's sum over the selected rows is its sum over all rows with the unselected rows counted as 0. */
  lemma {:induction false} FilterSumOfExact<R>(rs: seq<R>, p: R -> bool, key: R -> string, k: string, val: R -> nat)
    ensures SumOf(Filter(rs, p), key, k, val) == SumOf(rs, key, k, (r: R) => if p(r) then val(r) else 0)
  {
    if rs != [] {
      FilterSumOfExact(rs[1..], p, key, k, val);
      if p(rs[0]) {
        assert Filter(rs, p)[0] == rs[0];
        assert Filter(rs, p)[1..] == Filter(rs[1..], p);
      } else {
        assert Filter(rs, p) == Filter(rs[1..], p);
      }
    }
  }

  /** The distinct keys of `rs`, each once. */
  function KeysOf<R>(rs: seq<R>, key: R -> string): (ks: seq<string>)
    ensures forall i, j :: 0 <= i < j < |ks| ==> ks[i] != ks[j]
    ensures forall k :: k in ks <==> HasKey(rs, key, k)
  {
    if rs == [] then []
    else
      var rest := KeysOf(rs[1..], key);
      assert forall k :: HasKey(rs, key, k) <==> key(rs[0]) == k || HasKey(rs[1..], key, k) by {
        forall k ensures HasKey(rs, key, k) ==> key(rs[0]) == k || HasKey(rs[1..], key, k) {
          if HasKey(rs, key, k) {
            var i :| 0 <= i < |rs| && key(rs[i]) == k;
            if i > 0 { assert key(rs[1..][i - 1]) == k; }
          }
        }
        forall k ensures HasKey(rs[1..], key, k) ==> HasKey(rs, key, k) {
          if HasKey(rs[1..], key, k) {
            var i :| 0 <= i < |rs[1..]| && key(rs[1..][i]) == k;
            assert key(rs[i + 1]) == k;
          }
        }
        assert key(rs[0]) == key(rs[0]) ==> HasKey(rs, key, key(rs[0]));
      }
      if key(rs[0]) in rest then rest else [key(rs[0])] + rest
  }

  /** One row of `groupby(key)[col].sum()`: a key and the sum of its group. */
  datatype Group = Group(key: string, sum: nat)

  function GroupKey(g: Group): string { g.key }

  /**
   * `groupby(key)[val].sum().reset_index()`: one row per distinct key of `rs`,
   * holding the sum of `val` over that key's rows. The order of the groups is
   * left unspecified (see LeftJoinIgnoresOrder for why it does not matter).
   */
  function GroupSum<R>(rs: seq<R>, key: R -> string, val: R -> nat): (g: seq<Group>)
    ensures UniqueKeys(g, GroupKey)
    ensures forall k :: HasKey(g, GroupKey, k) <==> HasKey(rs, key, k)
    ensures forall i :: 0 <= i < |g| ==> g[i].sum == SumOf(rs, key, g[i].key, val)
  {
    var ks := KeysOf(rs, key);
    var g := seq(|ks|, i requires 0 <= i < |ks| => Group(ks[i], SumOf(rs, key, ks[i], val)));
    assert forall k :: HasKey(g, GroupKey, k) <==> k in ks by {
      forall k ensures HasKey(g, GroupKey, k) ==> k in ks {
        if HasKey(g, GroupKey, k) {
          var i :| 0 <= i < |g| && GroupKey(g[i]) == k;
          assert ks[i] == k;
        }
      }
      forall k ensures k in ks ==> HasKey(g, GroupKey, k) {
        if k in ks {
          var i :| 0 <= i < |ks| && ks[i] == k;
          assert GroupKey(g[i]) == k;
        }
      }
    }
    g
  }

  /** The rows of `rs` whose key is `k`, in order. */
  function Matches<R>(rs: seq<R>, key: R -> string, k: string): (m: seq<R>)
    ensures forall i :: 0 <= i < |m| ==> m[i] in rs && key(m[i]) == k
    ensures forall i :: 0 <= i < |rs| && key(rs[i]) == k ==> rs[i] in m
  {
    if rs == [] then [] else (if key(rs[0]) == k then [rs[0]] else []) + Matches(rs[1..], key, k)
  }

  /** The rows with key `k` are the selection of the rows by that key, so every copy is kept, in order. */
  lemma {:induction false} MatchesIsFilter<R>(rs: seq<R>, key: R -> string, k: string)
    ensures Matches(rs, key, k) == Filter(rs, (r: R) => key(r) == k)
  {
    if rs != [] {
      MatchesIsFilter(rs[1..], key, k);
    }
  }

  /** The first row of `rs` whose key is `k`, if any. */
  function Find<R>(rs: seq<R>, key: R -> string, k: string): (o: Option<R>)
    ensures o.Some? <==> HasKey(rs, key, k)
    ensures o.Some? ==> o.value in rs && key(o.value) == k
  {
    if rs == [] then None
    else if key(rs[0]) == k then Some(rs[0])
    else
      var o := Find(rs[1..], key, k);
      assert HasKey(rs, key, k) ==> HasKey(rs[1..], key, k) by {
        if HasKey(rs, key, k) {
          var i :| 0 <= i < |rs| && key(rs[i]) == k;
          assert key(rs[1..][i - 1]) == k;
        }
      }
      assert HasKey(rs[1..], key, k) ==> HasKey(rs, key, k) by {
        if HasKey(rs[1..], key, k) {
          var i :| 0 <= i < |rs[1..]| && key(rs[1..][i]) == k;
          assert key(rs[i + 1]) == k;
        }
      }
      o
  }

  /** Under unique keys, the row that has a key is the one Find returns. */
  lemma FindUnique<R>(rs: seq<R>, key: R -> string, x: R)
    requires UniqueKeys(rs, key)
    requires x in rs
    ensures Find(rs, key, key(x)) == Some(x)
  {
    var o := Find(rs, key, key(x));
    var i :| 0 <= i < |rs| && rs[i] == x;
    assert HasKey(rs, key, key(x)) by { assert key(rs[i]) == key(x); }
    var j :| 0 <= j < |rs| && rs[j] == o.value;
    assert i == j;
  }

  /** Under unique keys, a key's matches are its Find result or nothing. */
  lemma {:induction false} MatchesUnique<R>(rs: seq<R>, key: R -> string, k: string)
    requires UniqueKeys(rs, key)
    ensures Matches(rs, key, k) == if HasKey(rs, key, k) then [Find(rs, key, k).value] else []
  {
    if rs != [] {
      assert UniqueKeys(rs[1..], key) by {
        forall i, j | 0 <= i < j < |rs[1..]| ensures key(rs[1..][i]) != key(rs[1..][j]) {
          assert rs[1..][i] == rs[i + 1] && rs[1..][j] == rs[j + 1];
        }
      }
      MatchesUnique(rs[1..], key, k);
      if key(rs[0]) == k {
        forall i | 0 <= i < |rs[1..]| ensures key(rs[1..][i]) != k {
          assert rs[1..][i] == rs[i + 1];
        }
      } else {
        assert HasKey(rs, key, k) == HasKey(rs[1..], key, k) by {
          if HasKey(rs, key, k) {
            var i :| 0 <= i < |rs| && key(rs[i]) == k;
            assert key(rs[1..][i - 1]) == k;
          }
          if HasKey(rs[1..], key, k) {
            var i :| 0 <= i < |rs[1..]| && key(rs[1..][i]) == k;
            assert key(rs[i + 1]) == k;
          }
        }
      }
    }
  }

  /** A left row paired with each of its matches. */
  function WithEach<L, R>(l: L, m: seq<R>): (out: seq<(L, Option<R>)>)
  {
    seq(|m|, i requires 0 <= i < |m| => (l, Some(m[i])))
  }

  /**
   * `left.merge(right, on=key, how="left")`: every left row, in order, paired
   * with each right row of the same key, or with None (null right-hand columns)
   * when it has none.
   */
  function LeftJoin<L, R>(ls: seq<L>, lkey: L -> string, rs: seq<R>, rkey: R -> string): (out: seq<(L, Option<R>)>)
    ensures |out| >= |ls|
    ensures forall i :: 0 <= i < |out| ==> out[i].0 in ls && (out[i].1.Some? ==> out[i].1.value in rs && rkey(out[i].1.value) == lkey(out[i].0))
  {
    if ls == [] then []
    else
      var m := Matches(rs, rkey, lkey(ls[0]));
      var head := if m == [] then [(ls[0], None)] else WithEach(ls[0], m);
      var out := head + LeftJoin(ls[1..], lkey, rs, rkey);
      assert out[0].0 == ls[0];
      out
  }

  /**
   * Joining a left table onto a right table with unique keys keeps exactly one
   * row per left row, in the left table's order, carrying that key's right row
   * or None.
   */
  lemma {:induction false} LeftJoinUnique<L, R>(ls: seq<L>, lkey: L -> string, rs: seq<R>, rkey: R -> string)
    requires UniqueKeys(rs, rkey)
    ensures |LeftJoin(ls, lkey, rs, rkey)| == |ls|
    ensures forall i :: 0 <= i < |ls| ==> LeftJoin(ls, lkey, rs, rkey)[i] == (ls[i], Find(rs, rkey, lkey(ls[i])))
  {
    if ls != [] {
      LeftJoinUnique(ls[1..], lkey, rs, rkey);
      MatchesUnique(rs, rkey, lkey(ls[0]));
      var out := LeftJoin(ls, lkey, rs, rkey);
      assert out[1..] == LeftJoin(ls[1..], lkey, rs, rkey);
      forall i | 0 <= i < |ls| ensures out[i] == (ls[i], Find(rs, rkey, lkey(ls[i]))) {
        if i > 0 { assert ls[1..][i - 1] == ls[i]; }
      }
    }
  }

  /**
   * With unique right keys, a left join does not depend on the order of the
   * right table's rows: any arrangement of the same rows gives the same result.
   */
  lemma LeftJoinIgnoresOrder<L, R>(ls: seq<L>, lkey: L -> string, rs1: seq<R>, rs2: seq<R>, rkey: R -> string)
    requires UniqueKeys(rs1, rkey) && UniqueKeys(rs2, rkey)
    requires forall x :: x in rs1 <==> x in rs2
    ensures LeftJoin(ls, lkey, rs1, rkey) == LeftJoin(ls, lkey, rs2, rkey)
  {
    LeftJoinUnique(ls, lkey, rs1, rkey);
    LeftJoinUnique(ls, lkey, rs2, rkey);
    forall i | 0 <= i < |ls| ensures Find(rs1, rkey, lkey(ls[i])) == Find(rs2, rkey, lkey(ls[i])) {
      var o := Find(rs1, rkey, lkey(ls[i]));
      if o.Some? {
        FindUnique(rs2, rkey, o.value);
      } else {
        var o2 := Find(rs2, rkey, lkey(ls[i]));
        if o2.Some? { FindUnique(rs1, rkey, o2.value); }
      }
    }
  }

  /** A left row paired with each of its matches, for an inner join. */
  function PairEach<L, R>(l: L, m: seq<R>): seq<(L, R)>
  {
    seq(|m|, i requires 0 <= i < |m| => (l, m[i]))
  }

  /** The rows of `h` paired with its matches, put before an inner join of `t`, form an inner join of `[h] + t`. */
  lemma InnerJoinCons<L, R>(h: L, t: seq<L>, lkey: L -> string, rs: seq<R>, rkey: R -> string, tail: seq<(L, R)>)
    requires forall i :: 0 <= i < |tail| ==> tail[i].0 in t && tail[i].1 in rs && lkey(tail[i].0) == rkey(tail[i].1)
    requires forall i, j :: 0 <= i < |t| && 0 <= j < |rs| && lkey(t[i]) == rkey(rs[j]) ==> (t[i], rs[j]) in tail
    ensures var out := PairEach(h, Matches(rs, rkey, lkey(h))) + tail;
      forall i :: 0 <= i < |out| ==> out[i].0 in [h] + t && out[i].1 in rs && lkey(out[i].0) == rkey(out[i].1)
    ensures var out := PairEach(h, Matches(rs, rkey, lkey(h))) + tail;
      forall i, j :: 0 <= i < |[h] + t| && 0 <= j < |rs| && lkey(([h] + t)[i]) == rkey(rs[j]) ==> (([h] + t)[i], rs[j]) in out
  {
    var m := Matches(rs, rkey, lkey(h));
    var head := PairEach(h, m);
    var ls := [h] + t;
    forall j | 0 <= j < |rs| && rkey(rs[j]) == lkey(h) ensures (h, rs[j]) in head {
      var i :| 0 <= i < |m| && m[i] == rs[j];
      assert head[i] == (h, rs[j]);
    }
    forall i, j | 1 <= i < |ls| && 0 <= j < |rs| && lkey(ls[i]) == rkey(rs[j]) ensures (ls[i], rs[j]) in tail {
      assert ls[i] == t[i - 1];
    }
  }

  /**
   * `left.merge(right, on=key)` (how="inner"): each left row, in order, paired
   * with each right row of the same key; left rows without a match are dropped.
   */
  function InnerJoin<L, R>(ls: seq<L>, lkey: L -> string, rs: seq<R>, rkey: R -> string): (out: seq<(L, R)>)
    ensures forall i :: 0 <= i < |out| ==> out[i].0 in ls && out[i].1 in rs && lkey(out[i].0) == rkey(out[i].1)
    ensures forall i, j :: 0 <= i < |ls| && 0 <= j < |rs| && lkey(ls[i]) == rkey(rs[j]) ==> (ls[i], rs[j]) in out
  {
    if ls == [] then []
    else
      var tail := InnerJoin(ls[1..], lkey, rs, rkey);
      InnerJoinCons(ls[0], ls[1..], lkey, rs, rkey, tail);
      assert ls == [ls[0]] + ls[1..];
      PairEach(ls[0], Matches(rs, rkey, lkey(ls[0]))) + tail
  }

  /** The left rows that have a match in `rs`, in order. */
  function Semijoin<L, R>(ls: seq<L>, lkey: L -> string, rs: seq<R>, rkey: R -> string): (s: seq<L>)
    ensures forall i :: 0 <= i < |s| ==> s[i] in ls && HasKey(rs, rkey, lkey(s[i]))
  {
    if ls == [] then []
    else (if HasKey(rs, rkey, lkey(ls[0])) then [ls[0]] else []) + Semijoin(ls[1..], lkey, rs, rkey)
  }

  /**
   * Joining onto a right table with unique keys keeps exactly the left rows
   * that have a match, in order, each paired with that key's right row.
   */
  lemma {:induction false} InnerJoinUnique<L, R>(ls: seq<L>, lkey: L -> string, rs: seq<R>, rkey: R -> string)
    requires UniqueKeys(rs, rkey)
    ensures |InnerJoin(ls, lkey, rs, rkey)| == |Semijoin(ls, lkey, rs, rkey)|
    ensures forall i :: 0 <= i < |Semijoin(ls, lkey, rs, rkey)| ==>
      InnerJoin(ls, lkey, rs, rkey)[i] == (Semijoin(ls, lkey, rs, rkey)[i], Find(rs, rkey, lkey(Semijoin(ls, lkey, rs, rkey)[i])).value)
  {
    if ls != [] {
      InnerJoinUnique(ls[1..], lkey, rs, rkey);
      MatchesUnique(rs, rkey, lkey(ls[0]));
      var out := InnerJoin(ls, lkey, rs, rkey);
      var sj := Semijoin(ls, lkey, rs, rkey);
      var d := if HasKey(rs, rkey, lkey(ls[0])) then 1 else 0;
      assert out[d..] == InnerJoin(ls[1..], lkey, rs, rkey);
      assert sj[d..] == Semijoin(ls[1..], lkey, rs, rkey);
    }
  }

  /** Selecting rows keeps keys unique. */
  lemma {:induction false} FilterUnique<R>(rs: seq<R>, p: R -> bool, key: R -> string)
    requires UniqueKeys(rs, key)
    ensures UniqueKeys(Filter(rs, p), key)
  {
    if rs != [] {
      assert UniqueKeys(rs[1..], key) by {
        forall i, j | 0 <= i < j < |rs[1..]| ensures key(rs[1..][i]) != key(rs[1..][j]) {
          assert rs[1..][i] == rs[i + 1] && rs[1..][j] == rs[j + 1];
        }
      }
      FilterUnique(rs[1..], p, key);
      var tail := Filter(rs[1..], p);
      forall i | 0 <= i < |tail| ensures key(tail[i]) != key(rs[0]) {
        var m :| 0 <= m < |rs[1..]| && rs[1..][m] == tail[i];
        assert rs[m + 1] == tail[i];
      }
    }
  }

  /** Some selected row has key `k` exactly when some row with key `k` is selected. */
  lemma FilterHasKey<R>(rs: seq<R>, p: R -> bool, key: R -> string, k: string)
    ensures HasKey(Filter(rs, p), key, k) <==> exists i :: 0 <= i < |rs| && key(rs[i]) == k && p(rs[i])
  {
    var out := Filter(rs, p);
    if HasKey(out, key, k) {
      var i :| 0 <= i < |out| && key(out[i]) == k;
      var j :| 0 <= j < |rs| && rs[j] == out[i];
    }
    if exists i :: 0 <= i < |rs| && key(rs[i]) == k && p(rs[i]) {
      var i :| 0 <= i < |rs| && key(rs[i]) == k && p(rs[i]);
      var j :| 0 <= j < |out| && out[j] == rs[i];
    }
  }

  lemma {:induction false} SemijoinUnique<L, R>(ls: seq<L>, lkey: L -> string, rs: seq<R>, rkey: R -> string)
    requires UniqueKeys(ls, lkey)
    ensures UniqueKeys(Semijoin(ls, lkey, rs, rkey), lkey)
  {
    if ls != [] {
      assert UniqueKeys(ls[1..], lkey) by {
        forall i, j | 0 <= i < j < |ls[1..]| ensures lkey(ls[1..][i]) != lkey(ls[1..][j]) {
          assert ls[1..][i] == ls[i + 1] && ls[1..][j] == ls[j + 1];
        }
      }
      SemijoinUnique(ls[1..], lkey, rs, rkey);
      var tail := Semijoin(ls[1..], lkey, rs, rkey);
      forall i | 0 <= i < |tail| ensures lkey(tail[i]) != lkey(ls[0]) {
        var m :| 0 <= m < |ls[1..]| && ls[1..][m] == tail[i];
        assert ls[m + 1] == tail[i];
      }
    }
  }

  /** A left row with a match is kept. */
  lemma {:induction false} SemijoinKeeps<L, R>(ls: seq<L>, lkey: L -> string, rs: seq<R>, rkey: R -> string)
    ensures forall i :: 0 <= i < |ls| && HasKey(rs, rkey, lkey(ls[i])) ==> ls[i] in Semijoin(ls, lkey, rs, rkey)
  {
    if ls != [] {
      SemijoinKeeps(ls[1..], lkey, rs, rkey);
      forall i | 1 <= i < |ls| && HasKey(rs, rkey, lkey(ls[i])) ensures ls[i] in Semijoin(ls, lkey, rs, rkey) {
        assert ls[1..][i - 1] == ls[i];
      }
    }
  }

  lemma {:induction false} SemijoinAppend<L, R>(a: seq<L>, b: seq<L>, lkey: L -> string, rs: seq<R>, rkey: R -> string)
    ensures Semijoin(a + b, lkey, rs, rkey) == Semijoin(a, lkey, rs, rkey) + Semijoin(b, lkey, rs, rkey)
  {
    if a == [] {
      assert a + b == b;
    } else {
      assert (a + b)[0] == a[0] && (a + b)[1..] == a[1..] + b;
      SemijoinAppend(a[1..], b, lkey, rs, rkey);
    }
  }

  /** `before` holds between every row of `s` and every later row. */
  ghost predicate Ordered<L>(s: seq<L>, before: (L, L) -> bool)
  {
    forall i, j :: 0 <= i < j < |s| ==> before(s[i], s[j])
  }

  /** Dropping the first row keeps the order. */
  lemma OrderedTail<L>(ls: seq<L>, before: (L, L) -> bool)
    requires ls != [] && Ordered(ls, before)
    ensures Ordered(ls[1..], before)
  {
    var tail := ls[1..];
    forall i, j | 0 <= i < j < |tail| ensures before(tail[i], tail[j]) {
      assert tail[i] == ls[i + 1] && tail[j] == ls[j + 1];
    }
  }

  /** A row that comes before all of `t` can lead any ordered selection `s` of `t`'s rows. */
  lemma OrderedCons<L>(h: L, t: seq<L>, s: seq<L>, before: (L, L) -> bool)
    requires Ordered([h] + t, before) && Ordered(s, before)
    requires forall i :: 0 <= i < |s| ==> s[i] in t
    ensures Ordered([h] + s, before)
  {
    var ht := [h] + t;
    var r := [h] + s;
    forall i, j | 0 <= i < j < |r| ensures before(r[i], r[j]) {
      assert r[j] == s[j - 1];
      if i == 0 {
        var m :| 0 <= m < |t| && t[m] == s[j - 1];
        assert ht[0] == h && ht[m + 1] == t[m];
      } else {
        assert r[i] == s[i - 1];
      }
    }
  }

  /** Any relation holding between every earlier and later row still holds after the semijoin. */
  lemma {:induction false} SemijoinKeepsOrder<L, R>(ls: seq<L>, lkey: L -> string, rs: seq<R>, rkey: R -> string, before: (L, L) -> bool)
    requires Ordered(ls, before)
    ensures Ordered(Semijoin(ls, lkey, rs, rkey), before)
  {
    if ls != [] {
      OrderedTail(ls, before);
      SemijoinKeepsOrder(ls[1..], lkey, rs, rkey, before);
      var st := Semijoin(ls[1..], lkey, rs, rkey);
      if HasKey(rs, rkey, lkey(ls[0])) {
        assert ls == [ls[0]] + ls[1..];
        OrderedCons(ls[0], ls[1..], st, before);
        assert Semijoin(ls, lkey, rs, rkey) == [ls[0]] + st;
      } else {
        assert Semijoin(ls, lkey, rs, rkey) == st;
      }
    }
  }
}
