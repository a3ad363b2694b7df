/** `groupby('FoodGroup').mean()`: the group keys, and per group and column
    the arithmetic mean of the values that are not missing. */
module Aggregate {
  import opened Tables
  import opened Ordering

  function Sum(xs: seq<real>): real {
    if xs == [] then 0.0 else Sum(xs[..|xs| - 1]) + xs[|xs| - 1]
  }

  /** The arithmetic mean; the mean of no values is missing, not zero. */
  function Mean(xs: seq<real>): (m: Cell)
    ensures m.None? <==> xs == []
  {
    if xs == [] then None else Some(Sum(xs) / (|xs| as real))
  }

  /** The mean times the number of values is their sum. */
  lemma MeanTimesCount(xs: seq<real>)
    requires xs != []
    ensures Mean(xs).value * (|xs| as real) == Sum(xs)
  {
  }

  lemma {:induction false} SumBounds(xs: seq<real>, lo: real, hi: real)
    requires forall i :: 0 <= i < |xs| ==> lo <= xs[i] <= hi
    ensures lo * (|xs| as real) <= Sum(xs) <= hi * (|xs| as real)
  {
    if xs != [] {
      SumBounds(xs[..|xs| - 1], lo, hi);
    }
  }

  /** A mean lies between any lower and any upper bound of its values. */
  lemma MeanWithinBounds(xs: seq<real>, lo: real, hi: real)
    requires xs != []
    requires forall i :: 0 <= i < |xs| ==> lo <= xs[i] <= hi
    ensures lo <= Mean(xs).value <= hi
  {
    SumBounds(xs, lo, hi);
    MeanTimesCount(xs);
    var n := |xs| as real;
    var m := Mean(xs).value;
    assert (m - lo) * n >= 0.0;
    assert (hi - m) * n >= 0.0;
  }

  /** Some row of group g holds the value v in column c. */
  predicate HasValue(rows: seq<Row>, g: string, c: string, v: real) {
    exists i :: 0 <= i < |rows| && rows[i].group == g && Get(rows[i], c) == Some(v)
  }

  /** The non-missing values of column c over the rows of group g, in row order. */
  function GroupValues(rows: seq<Row>, g: string, c: string): (vs: seq<real>)
    ensures |vs| <= |rows|
  {
    if rows == [] then []
    else
      var last := rows[|rows| - 1];
      GroupValues(rows[..|rows| - 1], g, c) + (if last.group == g && Get(last, c).Some? then [Get(last, c).value] else [])
  }

  /** The values collected for group g are exactly the group's non-missing cells. */
  lemma {:induction false} GroupValuesMembers(rows: seq<Row>, g: string, c: string)
    ensures forall v :: v in GroupValues(rows, g, c) <==> HasValue(rows, g, c, v)
  {
    if rows != [] {
      var n := |rows| - 1;
      var last := rows[n];
      GroupValuesMembers(rows[..n], g, c);
      forall v | HasValue(rows[..n], g, c, v)
        ensures HasValue(rows, g, c, v)
      {
        var i :| 0 <= i < n && rows[..n][i].group == g && Get(rows[..n][i], c) == Some(v);
        assert rows[i] == rows[..n][i];
      }
      forall v | HasValue(rows, g, c, v) && !(last.group == g && Get(last, c) == Some(v))
        ensures HasValue(rows[..n], g, c, v)
      {
        var i :| 0 <= i < |rows| && rows[i].group == g && Get(rows[i], c) == Some(v);
        assert rows[..n][i] == rows[i];
      }
    }
  }

  /** How many rows of group g hold the value v in column c. */
  function CellCount(rows: seq<Row>, g: string, c: string, v: real): nat {
    if rows == [] then 0
    else
      var last := rows[|rows| - 1];
      CellCount(rows[..|rows| - 1], g, c, v) + (if last.group == g && Get(last, c) == Some(v) then 1 else 0)
  }

  /** Each value is collected for group g as many times as the group's cells hold it. */
  lemma {:induction false} GroupValuesCount(rows: seq<Row>, g: string, c: string, v: real)
    ensures multiset(GroupValues(rows, g, c))[v] == CellCount(rows, g, c, v)
  {
    if rows != [] {
      GroupValuesCount(rows[..|rows| - 1], g, c, v);
    }
  }

  /** Removing entry j takes b[j] out of the sum. */
  lemma {:induction false} SumRemove(b: seq<real>, j: nat)
    requires j < |b|
    ensures Sum(b) == Sum(b[..j] + b[j + 1..]) + b[j]
  {
    var n := |b| - 1;
    if j < n {
      SumRemove(b[..n], j);
      assert b[..n][..j] + b[..n][j + 1..] == (b[..j] + b[j + 1..])[..n - 1];
      assert (b[..j] + b[j + 1..])[n - 1] == b[n];
    } else {
      assert b[..j] + b[j + 1..] == b[..n];
    }
  }

  /** Taking the last entry of a and an equal entry b[j] of b out of two
      permutations of each other leaves permutations of each other. */
  lemma RemoveMatching<T>(a: seq<T>, b: seq<T>, j: nat)
    requires multiset(a) == multiset(b) && a != [] && j < |b| && b[j] == a[|a| - 1]
    ensures multiset(a[..|a| - 1]) == multiset(b[..j] + b[j + 1..])
  {
    var n := |a| - 1;
    var rest := b[..j] + b[j + 1..];
    assert a == a[..n] + [a[n]];
    assert b == b[..j] + [b[j]] + b[j + 1..];
    forall v
      ensures multiset(a[..n])[v] == multiset(rest)[v]
    {
      assert multiset(a)[v] == multiset(a[..n])[v] + multiset{a[n]}[v];
      assert multiset(b)[v] == multiset(rest)[v] + multiset{b[j]}[v];
    }
  }

  /** The sum does not depend on the order of the values. */
  lemma {:induction false} SumPermutation(a: seq<real>, b: seq<real>)
    requires multiset(a) == multiset(b)
    ensures Sum(a) == Sum(b)
  {
    if a != [] {
      var n := |a| - 1;
      assert a[n] in multiset(b);
      var j :| 0 <= j < |b| && b[j] == a[n];
      RemoveMatching(a, b, j);
      SumPermutation(a[..n], b[..j] + b[j + 1..]);
      SumRemove(b, j);
    } else {
      assert |multiset(b)| == 0;
    }
  }

  /** Any list holding each value as often as group g's cells do has the
      group's mean: the mean is fixed by the values and their counts. */
  lemma GroupMeanByCounts(rows: seq<Row>, g: string, c: string, xs: seq<real>)
    requires forall v :: multiset(xs)[v] == CellCount(rows, g, c, v)
    ensures Mean(xs) == GroupMean(rows, g, c)
  {
    var vs := GroupValues(rows, g, c);
    forall v
      ensures multiset(xs)[v] == multiset(vs)[v]
    {
      GroupValuesCount(rows, g, c, v);
    }
    assert multiset(xs) == multiset(vs);
    SumPermutation(xs, vs);
    assert |xs| == |multiset(xs)| == |multiset(vs)| == |vs|;
  }

  /** The mean of column c over group g, taken over the group's non-missing cells. */
  function GroupMean(rows: seq<Row>, g: string, c: string): Cell {
    Mean(GroupValues(rows, g, c))
  }

  /** A group's mean is missing exactly when every cell of the group is. */
  lemma GroupMeanMissing(rows: seq<Row>, g: string, c: string)
    ensures GroupMean(rows, g, c).None? <==> forall i :: 0 <= i < |rows| && rows[i].group == g ==> Get(rows[i], c).None?
  {
    var vs := GroupValues(rows, g, c);
    GroupValuesMembers(rows, g, c);
    if vs != [] {
      assert HasValue(rows, g, c, vs[0]);
    }
    if exists i :: 0 <= i < |rows| && rows[i].group == g && Get(rows[i], c).Some? {
      var i :| 0 <= i < |rows| && rows[i].group == g && Get(rows[i], c).Some?;
      assert HasValue(rows, g, c, Get(rows[i], c).value);
    }
  }

  /** The group keys of the rows, each once, in Python's string order. */
  function Groups(rows: seq<Row>): (gs: seq<string>)
    ensures StrictlyIncreasing(gs)
    ensures forall g :: g in gs <==> HasGroup(rows, g)
  {
    if rows == [] then []
    else
      var n := |rows| - 1;
      assert rows == rows[..n] + [rows[n]];
      assert forall g :: HasGroup(rows, g) <==> HasGroup(rows[..n], g) || rows[n].group == g by {
        forall g
          ensures HasGroup(rows, g) <==> HasGroup(rows[..n], g) || HasGroup([rows[n]], g)
        {
          HasGroupAppend(rows[..n], [rows[n]], g);
        }
      }
      InsertKey(rows[n].group, Groups(rows[..n]))
  }

  /** `groupby('FoodGroup').mean()[cols]`: one row per group of t, in key order,
      holding for each column of cols the mean of that group's non-missing
      values. A column t lacks is a KeyError in the data frame. */
  function GroupMeans(t: Table, cols: seq<string>): (m: Table)
    requires NoDuplicates(cols)
    requires forall c :: c in cols ==> c in t.columns
    ensures WellFormed(m) && m.columns == cols
    ensures |m.rows| == |Groups(t.rows)|
    ensures forall i :: 0 <= i < |m.rows| ==> m.rows[i].group == Groups(t.rows)[i]
    ensures DistinctGroups(m.rows)
    ensures forall g :: HasGroup(m.rows, g) <==> HasGroup(t.rows, g)
    ensures forall i, c :: 0 <= i < |m.rows| && c in cols ==> Get(m.rows[i], c) == GroupMean(t.rows, m.rows[i].group, c)
  {
    var gs := Groups(t.rows);
    var m := Table(cols, seq(|gs|, i requires 0 <= i < |gs| => Row(gs[i], map c | c in cols :: GroupMean(t.rows, gs[i], c))));
    StrictlyIncreasingIsDistinct(gs);
    assert forall g :: HasGroup(m.rows, g) <==> g in gs by {
      forall g | g in gs
        ensures HasGroup(m.rows, g)
      {
        var i :| 0 <= i < |gs| && gs[i] == g;
        assert m.rows[i].group == g;
      }
    }
    m
  }

  lemma {:induction false} GroupValuesAppend(a: seq<Row>, b: seq<Row>, g: string, c: string)
    ensures GroupValues(a + b, g, c) == GroupValues(a, g, c) + GroupValues(b, g, c)
  {
    if b == [] {
      assert a + b == a;
    } else {
      var n := |b| - 1;
      var last := b[n];
      var tail := if last.group == g && Get(last, c).Some? then [Get(last, c).value] else [];
      GroupValuesAppend(a, b[..n], g, c);
      assert (a + b)[..|a + b| - 1] == a + b[..n];
      assert (a + b)[|a + b| - 1] == last;
      assert GroupValues(a + b, g, c) == GroupValues(a + b[..n], g, c) + tail;
      assert GroupValues(b, g, c) == GroupValues(b[..n], g, c) + tail;
    }
  }

  lemma GroupValuesOne(r: Row, g: string, c: string)
    ensures GroupValues([r], g, c) == if r.group == g && Get(r, c).Some? then [Get(r, c).value] else []
  {
    assert [r][..0] == [];
  }

  /** Filtering to the groups gs leaves a kept group's values as they were and
      removes every other group's. */
  lemma {:induction false} KeepGroupsGroupValues(rows: seq<Row>, gs: set<string>, g: string, c: string)
    ensures GroupValues(KeepGroups(rows, gs), g, c) == if g in gs then GroupValues(rows, g, c) else []
  {
    if rows != [] {
      var n := |rows| - 1;
      var init, last := rows[..n], rows[n];
      var tail := if last.group in gs then [last] else [];
      calc {
        GroupValues(KeepGroups(rows, gs), g, c);
        GroupValues(KeepGroups(init, gs) + tail, g, c);
        { GroupValuesAppend(KeepGroups(init, gs), tail, g, c); }
        GroupValues(KeepGroups(init, gs), g, c) + GroupValues(tail, g, c);
        { KeepGroupsGroupValues(init, gs, g, c); }
        (if g in gs then GroupValues(init, g, c) else []) + GroupValues(tail, g, c);
        { GroupValuesOne(last, g, c); }
        if g in gs then GroupValues(init, g, c) + GroupValues([last], g, c) else [];
        { GroupValuesAppend(init, [last], g, c); assert init + [last] == rows; }
        if g in gs then GroupValues(rows, g, c) else [];
      }
    }
  }

  lemma KeepGroupsGroupMean(rows: seq<Row>, gs: set<string>, g: string, c: string)
    requires g in gs
    ensures GroupMean(KeepGroups(rows, gs), g, c) == GroupMean(rows, g, c)
  {
    KeepGroupsGroupValues(rows, gs, g, c);
  }

  /** The groups left after filtering to gs are the groups of the rows that are in gs. */
  lemma {:induction false} KeepGroupsHasGroup(rows: seq<Row>, gs: set<string>, g: string)
    ensures HasGroup(KeepGroups(rows, gs), g) <==> HasGroup(rows, g) && g in gs
  {
    if rows != [] {
      var n := |rows| - 1;
      var init, last := rows[..n], rows[n];
      assert init + [last] == rows;
      var tail := if last.group in gs then [last] else [];
      KeepGroupsHasGroup(init, gs, g);
      HasGroupAppend(KeepGroups(init, gs), tail, g);
      HasGroupAppend(init, [last], g);
      assert HasGroup([last], g) <==> last.group == g;
      assert HasGroup(tail, g) <==> last.group == g && g in gs;
    }
  }

  lemma KeepGroupsGroups(rows: seq<Row>, gs: set<string>)
    ensures forall g :: g in Groups(KeepGroups(rows, gs)) <==> g in Groups(rows) && g in gs
  {
    forall g
      ensures g in Groups(KeepGroups(rows, gs)) <==> g in Groups(rows) && g in gs
    {
      KeepGroupsHasGroup(rows, gs, g);
    }
  }

  /** `groupby('FoodGroup')['Energy_kcal'].mean()` sorted descending: one row
      per group of t holding that group's mean energy, highest first and
      groups whose mean is missing last. */
  function RankByEnergy(t: Table): (ranked: seq<Row>)
    requires Energy in t.columns
    ensures |ranked| == |Groups(t.rows)|
    ensures DistinctGroups(ranked)
    ensures forall g :: HasGroup(ranked, g) <==> HasGroup(t.rows, g)
    ensures forall i :: 0 <= i < |ranked| ==> Get(ranked[i], Energy) == GroupMean(t.rows, ranked[i].group, Energy)
    ensures NonIncreasing(ranked, ColumnKey(Energy))
  {
    var means := GroupMeans(t, [Energy]);
    var ranked := SortDesc(means.rows, ColumnKey(Energy));
    PermutationKeepsDistinctGroups(means.rows, ranked);
    PermutationKeepsRows(means.rows, ranked);
    assert forall i :: 0 <= i < |ranked| ==> Get(ranked[i], Energy) == GroupMean(t.rows, ranked[i].group, Energy) by {
      forall i | 0 <= i < |ranked|
        ensures Get(ranked[i], Energy) == GroupMean(t.rows, ranked[i].group, Energy)
      {
        assert ranked[i] in means.rows;
        var p :| 0 <= p < |means.rows| && means.rows[p] == ranked[i];
        assert Energy in [Energy];
      }
    }
    ranked
  }
}
