/**
 * `SELECT key, SUM(num), SUM(den) FROM xs GROUP BY key` as a fold over the
 * input rows, and its agreement with a per-key reference sum.
 */
module Grouping {
  import opened Wrappers
  import opened Tables

  /** One input row of the grouped query. */
  datatype Contribution<K> = Contribution(key: K, num: real, den: real)

  /** The two sums a group ends up with. */
  datatype Sums = Sums(num: real, den: real)

  /** Some input row has key `k`, so `k` gets a group. */
  predicate Occurs<K(==)>(xs: seq<Contribution<K>>, k: K)
  {
    exists i :: 0 <= i < |xs| && xs[i].key == k
  }

  /** Reference definition: the sum of `num` over the rows whose key is `k`. */
  function SumNum<K(==)>(xs: seq<Contribution<K>>, k: K): real
  {
    if |xs| == 0 then 0.0
    else SumNum(xs[..|xs| - 1], k) + (if xs[|xs| - 1].key == k then xs[|xs| - 1].num else 0.0)
  }

  /** Reference definition: the sum of `den` over the rows whose key is `k`. */
  function SumDen<K(==)>(xs: seq<Contribution<K>>, k: K): real
  {
    if |xs| == 0 then 0.0
    else SumDen(xs[..|xs| - 1], k) + (if xs[|xs| - 1].key == k then xs[|xs| - 1].den else 0.0)
  }

  /** A key that never occurs sums to zero. */
  lemma {:induction false} SumsOfAbsentKey<K>(xs: seq<Contribution<K>>, k: K)
    requires !Occurs(xs, k)
    ensures SumNum(xs, k) == 0.0 && SumDen(xs, k) == 0.0
  {
    if |xs| > 0 {
      var p := xs[..|xs| - 1];
      assert !Occurs(p, k) by {
        forall i | 0 <= i < |p|
          ensures p[i].key != k
        {
          assert p[i] == xs[i];
        }
      }
      SumsOfAbsentKey(p, k);
    }
  }

  lemma OccursLast<K>(xs: seq<Contribution<K>>, k: K)
    requires |xs| > 0
    ensures Occurs(xs, k) <==> Occurs(xs[..|xs| - 1], k) || xs[|xs| - 1].key == k
  {
    var p := xs[..|xs| - 1];
    if Occurs(xs, k) && xs[|xs| - 1].key != k {
      var i :| 0 <= i < |xs| && xs[i].key == k;
      assert p[i] == xs[i];
    }
    if Occurs(p, k) {
      var i :| 0 <= i < |p| && p[i].key == k;
      assert xs[i] == p[i];
    }
  }

  /** Adds one input row to the running groups. */
  function Accumulate<K(==,!new)>(gs: Table<K, Sums>, c: Contribution<K>): Table<K, Sums>
  {
    var s := Get(gs, c.key).GetOr(Sums(0.0, 0.0));
    Upsert(gs, c.key, Sums(s.num + c.num, s.den + c.den))
  }

  /** The row's key gains its two numbers (starting from zero sums); every other group is unchanged. */
  lemma AccumulateGet<K(!new)>(gs: Table<K, Sums>, c: Contribution<K>, k: K)
    ensures Get(Accumulate(gs, c), k) ==
      if k == c.key then Some(Sums(Get(gs, k).GetOr(Sums(0.0, 0.0)).num + c.num, Get(gs, k).GetOr(Sums(0.0, 0.0)).den + c.den))
      else Get(gs, k)
  {
    var s := Get(gs, c.key).GetOr(Sums(0.0, 0.0));
    UpsertGet(gs, c.key, Sums(s.num + c.num, s.den + c.den), k);
  }

  /** The groups, one row per distinct key, in order of first appearance. */
  function GroupBy<K(==,!new)>(xs: seq<Contribution<K>>): Table<K, Sums>
  {
    if |xs| == 0 then [] else Accumulate(GroupBy(xs[..|xs| - 1]), xs[|xs| - 1])
  }

  /** No key has two groups. */
  lemma {:induction false} GroupByUnique<K(!new)>(xs: seq<Contribution<K>>)
    ensures UniqueKeys(GroupBy(xs))
  {
    if |xs| > 0 {
      var g := GroupBy(xs[..|xs| - 1]);
      var c := xs[|xs| - 1];
      GroupByUnique(xs[..|xs| - 1]);
      var s := Get(g, c.key).GetOr(Sums(0.0, 0.0));
      UpsertUnique(g, c.key, Sums(s.num + c.num, s.den + c.den));
    }
  }

  /** Each key that occurs has exactly one group, holding its two sums; no other key has a group. */
  lemma {:induction false} GroupByGet<K(!new)>(xs: seq<Contribution<K>>, k: K)
    ensures Get(GroupBy(xs), k) == if Occurs(xs, k) then Some(Sums(SumNum(xs, k), SumDen(xs, k))) else None
  {
    if |xs| > 0 {
      var n := |xs| - 1;
      var p := xs[..n];
      GroupByGet(p, k);
      OccursLast(xs, k);
      var g := GroupBy(p);
      assert GroupBy(xs) == Accumulate(g, xs[n]);
      AccumulateGet(g, xs[n], k);
      if xs[n].key == k {
        if !Occurs(p, k) {
          SumsOfAbsentKey(p, k);
        }
        assert Get(g, k).GetOr(Sums(0.0, 0.0)) == Sums(SumNum(p, k), SumDen(p, k));
      }
    }
  }

  /** The grouped query with its SELECT-list expression `f` applied to each group's sums. */
  function Aggregate<K(==,!new), V(!new)>(xs: seq<Contribution<K>>, f: Sums -> V): Table<K, V>
  {
    MapValues(GroupBy(xs), f)
  }

  /** A key has a result row exactly when it occurs, and the row is `f` of that key's sums; keys are unique. */
  lemma AggregateGet<K(!new), V(!new)>(xs: seq<Contribution<K>>, f: Sums -> V, k: K)
    ensures Get(Aggregate(xs, f), k) == if Occurs(xs, k) then Some(f(Sums(SumNum(xs, k), SumDen(xs, k)))) else None
    ensures UniqueKeys(Aggregate(xs, f))
  {
    GroupByGet(xs, k);
    GroupByUnique(xs);
    MapValuesGet(GroupBy(xs), f, k);
  }
}
