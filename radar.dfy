/** `generate_radar_chart`: the five food groups with the highest mean energy,
    the means of the chosen nutrients over each of them, and the long-form
    table (group, value, label) the radar chart plots. */
module Radar {
  import opened Tables
  import opened Ordering
  import opened Aggregate

  /** How many of the most energetic groups the chart shows. */
  const TopGroupCount := 5

  /** `groupby('FoodGroup').mean(...)['Energy_kcal'].sort_values(ascending=False)[:5].index`:
      at most five distinct groups of the data, none of them with a lower mean
      energy than a group left out (groups whose mean is missing sort last). */
  function TopEnergyGroups(t: Table): (top: seq<string>)
    requires Energy in t.columns
    ensures |top| == Min(TopGroupCount, |Groups(t.rows)|)
    ensures NoDuplicates(top)
    ensures forall g :: g in top ==> HasGroup(t.rows, g)
    ensures forall i, g :: 0 <= i < |top| && HasGroup(t.rows, g) && g !in top ==>
      DescLe(GroupMean(t.rows, top[i], Energy), GroupMean(t.rows, g, Energy))
  {
    var ranked := RankByEnergy(t);
    var k := Min(TopGroupCount, |ranked|);
    var top := seq(k, i requires 0 <= i < k => ranked[i].group);
    LeadersRankFirst(t, ranked, k, top);
    top
  }

  /** The groups of the first k entries of the energy ranking: distinct,
      groups of the data, and none of them with a lower mean energy than a
      group left out. */
  lemma LeadersRankFirst(t: Table, ranked: seq<Row>, k: nat, top: seq<string>)
    requires Energy in t.columns && ranked == RankByEnergy(t)
    requires k <= |ranked| && |top| == k
    requires forall i :: 0 <= i < k ==> top[i] == ranked[i].group
    ensures NoDuplicates(top)
    ensures forall g :: g in top ==> HasGroup(t.rows, g)
    ensures forall i, g :: 0 <= i < k && HasGroup(t.rows, g) && g !in top ==>
      DescLe(GroupMean(t.rows, top[i], Energy), GroupMean(t.rows, g, Energy))
  {
    LeadingGroups(ranked, k, top);
    forall i, g | 0 <= i < k && HasGroup(t.rows, g) && g !in top
      ensures DescLe(GroupMean(t.rows, top[i], Energy), GroupMean(t.rows, g, Energy))
    {
      var q :| k <= q < |ranked| && ranked[q].group == g;
      assert DescLe(ColumnKey(Energy)(ranked[i]), ColumnKey(Energy)(ranked[q]));
    }
  }

  /** The groups of the first k of rows with distinct groups: distinct, found
      in the rows, and every other group of the rows stands after position k. */
  lemma LeadingGroups(rows: seq<Row>, k: nat, top: seq<string>)
    requires k <= |rows| && |top| == k
    requires forall i :: 0 <= i < k ==> top[i] == rows[i].group
    requires DistinctGroups(rows)
    ensures NoDuplicates(top)
    ensures forall g :: g in top ==> HasGroup(rows, g)
    ensures forall g :: HasGroup(rows, g) && g !in top ==> exists q :: k <= q < |rows| && rows[q].group == g
  {
    forall g | g in top
      ensures HasGroup(rows, g)
    {
      var i :| 0 <= i < k && top[i] == g;
      assert rows[i].group == g;
    }
    forall g | HasGroup(rows, g) && g !in top
      ensures exists q :: k <= q < |rows| && rows[q].group == g
    {
      var q :| 0 <= q < |rows| && rows[q].group == g;
      assert q >= k by {
        assert forall i :: 0 <= i < k ==> rows[i].group in top;
      }
    }
  }

  /** The index of the per-group means the chart is drawn from: the selected
      groups, in groupby's key order. */
  function RadarGroups(t: Table): (gs: seq<string>)
    requires Energy in t.columns
    ensures StrictlyIncreasing(gs)
    ensures forall g :: g in gs <==> g in TopEnergyGroups(t)
    ensures |gs| == |TopEnergyGroups(t)|
  {
    var top := TopEnergyGroups(t);
    var selected := set g | g in top;
    var gs := Groups(KeepGroups(t.rows, selected));
    SameGroupsAsTop(t, top, selected, gs);
    gs
  }

  lemma SameGroupsAsTop(t: Table, top: seq<string>, selected: set<string>, gs: seq<string>)
    requires NoDuplicates(top) && forall g :: g in top ==> HasGroup(t.rows, g)
    requires selected == set g | g in top
    requires gs == Groups(KeepGroups(t.rows, selected))
    ensures forall g :: g in gs <==> g in top
    ensures |gs| == |top|
  {
    KeepGroupsGroups(t.rows, selected);
    assert forall g :: g in gs <==> g in top;
    StrictlyIncreasingIsDistinct(gs);
    SameElementsSameLength(gs, top);
  }

  /** `s.split(sep)`: the pieces between the separators, at least one. */
  function Split(s: string, sep: char): (parts: seq<string>)
    ensures |parts| >= 1
    ensures forall k :: 0 <= k < |parts| ==> sep !in parts[k]
  {
    if s == [] then [[]]
    else
      var rest := Split(s[1..], sep);
      if s[0] == sep then [[]] + rest else [[s[0]] + rest[0]] + rest[1..]
  }

  /** `sep.join(parts)`. */
  function Join(parts: seq<string>, sep: char): string
    requires |parts| >= 1
  {
    if |parts| == 1 then parts[0] else parts[0] + [sep] + Join(parts[1..], sep)
  }

  /** Joining the pieces again gives back the string that was split. */
  lemma {:induction false} JoinSplit(s: string, sep: char)
    ensures Join(Split(s, sep), sep) == s
  {
    if s != [] {
      JoinSplit(s[1..], sep);
      var rest := Split(s[1..], sep);
      if s[0] == sep {
        assert ([[]] + rest)[1..] == rest;
      } else if |rest| > 1 {
        assert ([[s[0]] + rest[0]] + rest[1..])[1..] == rest[1..];
      }
      assert s == [s[0]] + s[1..];
    }
  }

  /** A piece before the first separator is split off whole. */
  lemma {:induction false} SplitAtFirst(x: string, sep: char, y: string)
    requires sep !in x
    ensures Split(x + [sep] + y, sep) == [x] + Split(y, sep)
  {
    if x != [] {
      SplitAtFirst(x[1..], sep, y);
      assert (x + [sep] + y)[1..] == x[1..] + [sep] + y;
      assert x == [x[0]] + x[1..];
    } else {
      assert (x + [sep] + y)[1..] == y;
    }
  }

  lemma {:induction false} SplitNoSeparator(x: string, sep: char)
    requires sep !in x
    ensures Split(x, sep) == [x]
  {
    if x != [] {
      SplitNoSeparator(x[1..], sep);
      assert x == [x[0]] + x[1..];
    }
  }

  /** A string splits into two pieces or more exactly when it holds the separator. */
  lemma SplitInTwo(s: string, sep: char)
    ensures |Split(s, sep)| >= 2 <==> sep in s
  {
    var parts := Split(s, sep);
    if sep in s {
      JoinSplit(s, sep);
    }
    if sep !in s {
      SplitNoSeparator(s, sep);
    }
  }

  /** The chart label of a column name, `f'{parts[0]} ({parts[1]})'` of its
      '_'-separated pieces; a name without '_' has no second piece, which is an
      IndexError. */
  function Label(name: string): (text: Option<string>)
    ensures text.None? <==> '_' !in name
  {
    var parts := Split(name, '_');
    SplitInTwo(name, '_');
    if |parts| < 2 then None else Some(parts[0] + " (" + parts[1] + ")")
  }

  /** `X_u` is labelled `X (u)`, and so is `X_u_w`: the pieces after the second
      are ignored. */
  lemma LabelOfUnitName(x: string, u: string, rest: string)
    requires '_' !in x && '_' !in u
    ensures Label(x + "_" + u) == Some(x + " (" + u + ")")
    ensures Label(x + "_" + u + "_" + rest) == Some(x + " (" + u + ")")
  {
    SplitAtFirst(x, '_', u);
    SplitNoSeparator(u, '_');
    SplitAtFirst(x, '_', u + "_" + rest);
    SplitAtFirst(u, '_', rest);
    assert x + "_" + u + "_" + rest == x + ['_'] + (u + ['_'] + rest);
  }

  lemma LabelExamples()
    ensures Label("Fat_g") == Some("Fat (g)")
    ensures Label("Energy_kcal") == Some("Energy (kcal)")
    ensures Label("Fat") == None
  {
    LabelOfUnitName("Fat", "g", "");
    assert "Fat" + "_" + "g" == "Fat_g";
    assert "Fat" + " (" + "g" + ")" == "Fat (g)";
    LabelOfUnitName("Energy", "kcal", "");
    assert "Energy" + "_" + "kcal" == "Energy_kcal";
    assert "Energy" + " (" + "kcal" + ")" == "Energy (kcal)";
    assert '_' !in "Fat";
  }


  datatype RadarRow = RadarRow(group: string, value: Cell, caption: string)

  /** Why generating the chart data fails: a nutrient name without '_'
      (IndexError while labelling), or no nutrient at all (pd.concat of an
      empty list is a ValueError). */
  datatype RadarError = NoUnit(name: string) | NothingToConcatenate

  /** One nutrient's block: every group of the means with its mean and the caption. */
  function RadarBlock(means: Table, nutrient: string, caption: string): (block: seq<RadarRow>)
    ensures |block| == |means.rows|
  {
    seq(|means.rows|, j requires 0 <= j < |means.rows| =>
      RadarRow(means.rows[j].group, Get(means.rows[j], nutrient), caption))
  }

  function LabelText(name: string): string
    requires '_' in name
  {
    Label(name).value
  }

  /** Lines 18-19: the rows of the selected groups, averaged per group over
      the chosen nutrients. One row per selected group in key order; each
      mean is the group's mean over the whole data, since filtering to the
      selected groups keeps every row of a selected group. */
  function SelectedMeans(t: Table, nutrients: seq<string>): (means: Table)
    requires Energy in t.columns
    requires NoDuplicates(nutrients) && forall n :: n in nutrients ==> n in t.columns
    ensures means.columns == nutrients
    ensures |means.rows| == |RadarGroups(t)|
    ensures forall j :: 0 <= j < |means.rows| ==> means.rows[j].group == RadarGroups(t)[j]
    ensures forall j, n :: 0 <= j < |means.rows| && n in nutrients ==>
      Get(means.rows[j], n) == GroupMean(t.rows, means.rows[j].group, n)
  {
    var selected := set g | g in TopEnergyGroups(t);
    var kept := KeepGroups(t.rows, selected);
    var means := GroupMeans(Table(t.columns, kept), nutrients);
    KeepGroupsGroups(t.rows, selected);
    forall j, n | 0 <= j < |means.rows| && n in nutrients
      ensures Get(means.rows[j], n) == GroupMean(t.rows, means.rows[j].group, n)
    {
      var g := means.rows[j].group;
      assert g == Groups(kept)[j];
      assert g in Groups(kept);
      KeepGroupsGroupMean(t.rows, selected, g, n);
    }
    means
  }

  /** What the chart shows for nutrient n over the groups gs: each group with
      its mean of n over the rows, under n's label. */
  function ChartBlock(rows: seq<Row>, gs: seq<string>, nutrient: string): (block: seq<RadarRow>)
    requires '_' in nutrient
    ensures |block| == |gs|
  {
    seq(|gs|, j requires 0 <= j < |gs| => RadarRow(gs[j], GroupMean(rows, gs[j], nutrient), LabelText(nutrient)))
  }

  function ChartBlocks(rows: seq<Row>, gs: seq<string>, nutrients: seq<string>): seq<seq<RadarRow>>
    requires forall k :: 0 <= k < |nutrients| ==> '_' in nutrients[k]
  {
    seq(|nutrients|, i requires 0 <= i < |nutrients| => ChartBlock(rows, gs, nutrients[i]))
  }

  lemma ChartBlocksSnoc(rows: seq<Row>, gs: seq<string>, nutrients: seq<string>, i: nat)
    requires i < |nutrients| && forall k :: 0 <= k <= i ==> '_' in nutrients[k]
    ensures ChartBlocks(rows, gs, nutrients[..i + 1])
      == ChartBlocks(rows, gs, nutrients[..i]) + [ChartBlock(rows, gs, nutrients[i])]
  {
  }

  /** The chart has one row per chosen nutrient and group. */
  lemma ChartLength(rows: seq<Row>, gs: seq<string>, nutrients: seq<string>)
    requires forall k :: 0 <= k < |nutrients| ==> '_' in nutrients[k]
    ensures |Concat(ChartBlocks(rows, gs, nutrients))| == |nutrients| * |gs|
  {
    ConcatLength(ChartBlocks(rows, gs, nutrients), |gs|);
  }

  /** The chart rows are laid out nutrient by nutrient: the row of nutrient i
      and group j, at i * |gs| + j, holds the group's mean of the nutrient over
      the rows under the nutrient's label. */
  lemma ChartRow(rows: seq<Row>, gs: seq<string>, nutrients: seq<string>, i: nat, j: nat)
    requires forall k :: 0 <= k < |nutrients| ==> '_' in nutrients[k]
    requires i < |nutrients| && j < |gs|
    ensures 0 <= i * |gs| + j < |Concat(ChartBlocks(rows, gs, nutrients))|
    ensures Concat(ChartBlocks(rows, gs, nutrients))[i * |gs| + j]
      == RadarRow(gs[j], GroupMean(rows, gs[j], nutrients[i]), LabelText(nutrients[i]))
  {
    ConcatAt(ChartBlocks(rows, gs, nutrients), |gs|, i, j);
  }

  /** The block built from the selected means is the chart's block. */
  lemma SelectedBlock(t: Table, nutrients: seq<string>, i: nat)
    requires Energy in t.columns
    requires NoDuplicates(nutrients) && forall n :: n in nutrients ==> n in t.columns
    requires i < |nutrients| && '_' in nutrients[i]
    ensures RadarBlock(SelectedMeans(t, nutrients), nutrients[i], LabelText(nutrients[i]))
      == ChartBlock(t.rows, RadarGroups(t), nutrients[i])
  {
    var means := SelectedMeans(t, nutrients);
    assert nutrients[i] in nutrients;
    var b := RadarBlock(means, nutrients[i], LabelText(nutrients[i]));
    forall j | 0 <= j < |b|
      ensures b[j] == ChartBlock(t.rows, RadarGroups(t), nutrients[i])[j]
    {
      assert means.rows[j].group == RadarGroups(t)[j];
    }
  }

  /** The long-form table behind the radar chart: for each chosen nutrient in
      order, one row per selected group (in key order) with that group's mean of
      the nutrient and the nutrient's label. */
  method RadarData(t: Table, nutrients: seq<string>) returns (r: Result<seq<RadarRow>, RadarError>)
    requires WellFormed(t) && Energy in t.columns
    requires NoDuplicates(nutrients) && forall n :: n in nutrients ==> n in t.columns
    ensures r.Err? <==> nutrients == [] || exists k :: 0 <= k < |nutrients| && '_' !in nutrients[k]
    ensures r == Err(NothingToConcatenate) <==> nutrients == []
    ensures r.Err? && r.error.NoUnit? ==>
      exists k :: (0 <= k < |nutrients| && r.error.name == nutrients[k] && '_' !in nutrients[k]
                   && forall k' :: 0 <= k' < k ==> '_' in nutrients[k'])
    ensures r.Ok? ==> r.value == Concat(ChartBlocks(t.rows, RadarGroups(t), nutrients))
  {
    var means := SelectedMeans(t, nutrients);
    var gs := RadarGroups(t);
    var blocks: seq<seq<RadarRow>> := [];
    var i := 0;
    while i < |nutrients|
      invariant 0 <= i <= |nutrients|
      invariant forall k :: 0 <= k < i ==> '_' in nutrients[k]
      invariant blocks == ChartBlocks(t.rows, gs, nutrients[..i])
    {
      var text := Label(nutrients[i]);
      if text.None? {
        assert '_' !in nutrients[i];
        return Err(NoUnit(nutrients[i]));
      }
      SelectedBlock(t, nutrients, i);
      ChartBlocksSnoc(t.rows, gs, nutrients, i);
      blocks := blocks + [RadarBlock(means, nutrients[i], text.value)];
      i := i + 1;
    }
    if nutrients == [] {
      return Err(NothingToConcatenate);
    }
    assert nutrients[..i] == nutrients;
    r := Ok(Concat(blocks));
  }
}
