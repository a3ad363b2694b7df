/** The "Nutrition Composition" pie chart of one food group: the nutrient
    columns and Energy_kcal selected, the nine vitamin columns summed into one
    Vitamin_g column and dropped, the rows of the chosen group kept, and the
    table melted into one (energy, group, nutrient, value) row per cell. */
module Composition {
  import opened Tables
  import opened Frames
  import opened Aggregate

  const Vitamin := "Vitamin_g"

  /** The columns summed into Vitamin_g and then dropped. */
  const VitaminSources: seq<string> :=
    ["VitA_g", "VitB6_g", "VitB12_g", "VitC_g", "VitE_g", "Folate_g", "Niacin_g", "Riboflavin_g", "Thiamin_g"]

  const Macronutrients: seq<string> := ["Protein_g", "Fat_g", "Carb_g", "Sugar_g", "Fiber_g"]

  const Minerals: seq<string> :=
    ["Calcium_g", "Copper_g", "Iron_g", "Magnesium_g", "Manganese_g", "Phosphorus_g", "Selenium_g", "Zinc_g"]

  /** The columns selected from the data: the nutrient columns and Energy_kcal. */
  const CompositionInput: seq<string> := NutritionColumns + [Energy]

  /** The columns left once Vitamin_g is added and its sources dropped. */
  const ComposedColumns: seq<string> := Macronutrients + Minerals + [Energy, Vitamin]

  /** The nutrients the pie chart shows, in the order the melted table lists them. */
  const ShownNutrients: seq<string> := Macronutrients + Minerals + [Vitamin]

  /** Adding two columns: a missing value on either side gives a missing sum. */
  function Plus(a: Cell, b: Cell): Cell {
    if a.Some? && b.Some? then Some(a.value + b.value) else None
  }

  /** Dividing a column by a constant; a missing value stays missing. */
  function Divide(a: Cell, d: real): Cell
    requires d != 0.0
  {
    if a.Some? then Some(a.value / d) else None
  }

  /** Lines 113-115: the nine vitamin cells added up in the source's order,
      with Folate_g divided by 1000. */
  function VitaminComposite(r: Row): Cell {
    Plus(Plus(Plus(Plus(Plus(Plus(Plus(Plus(
      Get(r, "VitA_g"), Get(r, "VitB6_g")), Get(r, "VitB12_g")), Get(r, "VitC_g")), Get(r, "VitE_g")),
      Divide(Get(r, "Folate_g"), 1000.0)), Get(r, "Niacin_g")), Get(r, "Riboflavin_g")), Get(r, "Thiamin_g"))
  }

  /** The weight of a vitamin column in the composite. */
  function Weight(c: string): real {
    if c == "Folate_g" then 0.001 else 1.0
  }

  /** Column c of r times its weight. */
  function Weighted(r: Row, c: string): Cell {
    if Get(r, c).Some? then Some(Weight(c) * Get(r, c).value) else None
  }

  /** The weighted sum of the columns cols of r, missing when any of them is. */
  function WeightedSum(r: Row, cols: seq<string>): Cell {
    if cols == [] then Some(0.0)
    else
      Plus(WeightedSum(r, cols[..|cols| - 1]), Weighted(r, cols[|cols| - 1]))
  }

  lemma WeightedSumPrefix(r: Row, cols: seq<string>, k: nat)
    requires k < |cols|
    ensures WeightedSum(r, cols[..k + 1]) == Plus(WeightedSum(r, cols[..k]), Weighted(r, cols[k]))
  {
    assert cols[..k + 1][..k] == cols[..k];
  }

  lemma FirstSourcesSum(r: Row)
    ensures WeightedSum(r, VitaminSources[..3])
      == Plus(Plus(Plus(Some(0.0), Weighted(r, "VitA_g")), Weighted(r, "VitB6_g")), Weighted(r, "VitB12_g"))
  {
    var s := VitaminSources;
    assert s[..0] == [];
    WeightedSumPrefix(r, s, 0);
    WeightedSumPrefix(r, s, 1);
    WeightedSumPrefix(r, s, 2);
  }

  lemma MiddleSourcesSum(r: Row)
    ensures WeightedSum(r, VitaminSources[..6])
      == Plus(Plus(Plus(WeightedSum(r, VitaminSources[..3]),
           Weighted(r, "VitC_g")), Weighted(r, "VitE_g")), Weighted(r, "Folate_g"))
  {
    var s := VitaminSources;
    WeightedSumPrefix(r, s, 3);
    WeightedSumPrefix(r, s, 4);
    WeightedSumPrefix(r, s, 5);
  }

  lemma VitaminSourcesSum(r: Row)
    ensures WeightedSum(r, VitaminSources)
      == Plus(Plus(Plus(WeightedSum(r, VitaminSources[..6]),
           Weighted(r, "Niacin_g")), Weighted(r, "Riboflavin_g")), Weighted(r, "Thiamin_g"))
  {
    var s := VitaminSources;
    assert s[..9] == s;
    WeightedSumPrefix(r, s, 6);
    WeightedSumPrefix(r, s, 7);
    WeightedSumPrefix(r, s, 8);
  }

  /** The composite is the weighted sum of the nine vitamin columns, each with
      weight 1 except Folate_g with weight 1/1000. */
  lemma VitaminCompositeIsWeightedSum(r: Row)
    ensures VitaminComposite(r) == WeightedSum(r, VitaminSources)
  {
    FirstSourcesSum(r);
    MiddleSourcesSum(r);
    VitaminSourcesSum(r);
    assert Weighted(r, "Folate_g") == Divide(Get(r, "Folate_g"), 1000.0);
    assert Plus(Some(0.0), Weighted(r, "VitA_g")) == Get(r, "VitA_g");
  }

  /** A weighted sum is missing exactly when one of its columns is. */
  lemma {:induction false} WeightedSumMissing(r: Row, cols: seq<string>)
    ensures WeightedSum(r, cols).None? <==> exists c :: c in cols && Get(r, c).None?
  {
    if cols != [] {
      var n := |cols| - 1;
      var init := cols[..n];
      WeightedSumMissing(r, init);
      assert cols == init + [cols[n]];
      if exists c :: c in cols && Get(r, c).None? {
        var c :| c in cols && Get(r, c).None?;
        if c != cols[n] {
          assert c in init;
        }
      }
      if exists c :: c in init && Get(r, c).None? {
        var c :| c in init && Get(r, c).None?;
        assert c in cols;
      }
    }
  }

  /** The composite is missing exactly when one of the nine vitamin cells is:
      pandas' `+` propagates NaN. */
  lemma VitaminMissing(r: Row)
    ensures VitaminComposite(r).None? <==> exists c :: c in VitaminSources && Get(r, c).None?
  {
    VitaminCompositeIsWeightedSum(r);
    WeightedSumMissing(r, VitaminSources);
  }

  /** A food item after lines 112-117: its input columns, Vitamin_g added and
      the vitamin sources dropped. */
  function ComposedRow(r: Row): Row {
    var s := SelectRow(r, CompositionInput);
    Row(r.group, s.cells[Vitamin := VitaminComposite(s)] - (set n | n in VitaminSources))
  }

  /** The table the chart melts: the composed rows of the chosen group. */
  function ComposedTable(t: Table, group: string): Table {
    Table(ComposedColumns, KeepGroups(MapRows(t.rows, ComposedRow), {group}))
  }

  /** One row of the melted table. */
  datatype LongRow = LongRow(energy: Cell, group: string, nutrition: string, value: Cell)

  function MeltBlock(rows: seq<Row>, column: string): (block: seq<LongRow>)
    ensures |block| == |rows|
  {
    seq(|rows|, i requires 0 <= i < |rows| => LongRow(Get(rows[i], Energy), rows[i].group, column, Get(rows[i], column)))
  }

  function MeltBlocks(t: Table): seq<seq<LongRow>> {
    var columns := Without(t.columns, [Energy]);
    seq(|columns|, k requires 0 <= k < |columns| => MeltBlock(t.rows, columns[k]))
  }

  /** `melt(id_vars=['Energy_kcal', 'FoodGroup'], var_name='Nutrition',
      value_name='Value')`: the columns other than Energy_kcal one after the
      other, each contributing one row per row of the table. */
  function Melt(t: Table): seq<LongRow> {
    Concat(MeltBlocks(t))
  }

  /** A melted table has one row per row and melted column. */
  lemma MeltLength(t: Table)
    ensures |Melt(t)| == |Without(t.columns, [Energy])| * |t.rows|
  {
    ConcatLength(MeltBlocks(t), |t.rows|);
  }

  /** The cell of row i in the k-th melted column is at k * |rows| + i, next
      to the row's energy and group. */
  lemma MeltAt(t: Table, k: nat, i: nat)
    requires k < |Without(t.columns, [Energy])| && i < |t.rows|
    ensures 0 <= k * |t.rows| + i < |Melt(t)|
    ensures Melt(t)[k * |t.rows| + i]
      == LongRow(Get(t.rows[i], Energy), t.rows[i].group, Without(t.columns, [Energy])[k], Get(t.rows[i], Without(t.columns, [Energy])[k]))
  {
    ConcatAt(MeltBlocks(t), |t.rows|, k, i);
  }

  /** The selected columns are the macronutrients, the vitamin sources, the
      minerals and Energy_kcal, in that order. */
  lemma InputSplit()
    ensures CompositionInput == Macronutrients + VitaminSources + Minerals + [Energy]
  {
  }

  lemma MacronutrientsApart()
    ensures NoDuplicates(Macronutrients)
    ensures forall c :: c in Macronutrients ==> c !in VitaminSources && c !in Minerals && c != Energy && c != Vitamin
  {
  }

  lemma SourcesApart()
    ensures NoDuplicates(VitaminSources)
    ensures forall c :: c in VitaminSources ==> c !in Minerals && c != Energy && c != Vitamin
  {
  }

  lemma MineralsApart()
    ensures NoDuplicates(Minerals)
    ensures forall c :: c in Minerals ==> c != Energy && c != Vitamin
  {
  }

  lemma InputFacts()
    ensures NoDuplicates(CompositionInput)
    ensures Vitamin !in CompositionInput
    ensures forall c :: c in VitaminSources ==> c in CompositionInput
  {
    InputSplit();
    MacronutrientsApart();
    SourcesApart();
    MineralsApart();
    NoDuplicatesAppend(Macronutrients, VitaminSources);
    NoDuplicatesAppend(Macronutrients + VitaminSources, Minerals);
    NoDuplicatesAppend(Macronutrients + VitaminSources + Minerals, [Energy]);
  }

  lemma AppendAssociates<T>(a: seq<T>, b: seq<T>, c: seq<T>)
    ensures a + (b + c) == a + b + c
  {
  }

  lemma SourcesSplit()
    ensures CompositionInput + [Vitamin] == Macronutrients + VitaminSources + (Minerals + [Energy, Vitamin])
  {
    InputSplit();
  }

  lemma MacronutrientsKept()
    ensures Without(Macronutrients, VitaminSources) == Macronutrients
  {
    MacronutrientsApart();
    WithoutNone(Macronutrients, VitaminSources);
  }

  lemma MineralsKept()
    ensures Without(Minerals + [Energy, Vitamin], VitaminSources) == Minerals + [Energy, Vitamin]
  {
    SourcesApart();
    WithoutNone(Minerals + [Energy, Vitamin], VitaminSources);
  }

  /** Adding Vitamin_g and dropping its sources leaves the macronutrients, the
      minerals, Energy_kcal and Vitamin_g, in that order. */
  lemma ComposedColumnsFacts()
    ensures Without(CompositionInput + [Vitamin], VitaminSources) == ComposedColumns
  {
    var a, b, c := Macronutrients, VitaminSources, Minerals + [Energy, Vitamin];
    SourcesSplit();
    MacronutrientsKept();
    MineralsKept();
    WithoutAll(VitaminSources, VitaminSources);
    WithoutAppend(a + b, c, b);
    WithoutAppend(a, b, b);
    assert a + [] == a;
    AppendAssociates(Macronutrients, Minerals, [Energy, Vitamin]);
  }

  /** Melting leaves Energy_kcal out: the Nutrition column runs through the
      macronutrients, the minerals and Vitamin_g. */
  lemma ShownNutrientsFacts()
    ensures Without(ComposedColumns, [Energy]) == ShownNutrients
    ensures |ShownNutrients| == 14
  {
    WithoutNone(Macronutrients + Minerals, [Energy]);
    WithoutAll([Energy], [Energy]);
    WithoutNone([Vitamin], [Energy]);
    assert ComposedColumns == (Macronutrients + Minerals) + [Energy] + [Vitamin];
    WithoutAppend((Macronutrients + Minerals) + [Energy], [Vitamin], [Energy]);
    WithoutAppend(Macronutrients + Minerals, [Energy], [Energy]);
  }

  lemma ShownFacts()
    ensures forall c :: c in ShownNutrients && c != Vitamin ==> c in CompositionInput && c !in VitaminSources
    ensures Energy in CompositionInput && Energy !in VitaminSources && Energy != Vitamin
  {
    InputSplit();
    MacronutrientsApart();
    SourcesApart();
    MineralsApart();
  }

  /** Selecting the input columns keeps the nine vitamin cells. */
  lemma SelectKeepsComposite(r: Row)
    ensures VitaminComposite(SelectRow(r, CompositionInput)) == VitaminComposite(r)
  {
    InputFacts();
    var s := SelectRow(r, CompositionInput);
    forall c | c in VitaminSources
      ensures Get(s, c) == Get(r, c)
    {
    }
    assert "VitA_g" in VitaminSources && "VitB6_g" in VitaminSources && "VitB12_g" in VitaminSources;
    assert "VitC_g" in VitaminSources && "VitE_g" in VitaminSources && "Folate_g" in VitaminSources;
    assert "Niacin_g" in VitaminSources && "Riboflavin_g" in VitaminSources && "Thiamin_g" in VitaminSources;
  }

  /** The value the chart shows for nutrient c of food item r: the composite
      for Vitamin_g, the item's own cell otherwise. */
  function ShownValue(r: Row, c: string): Cell {
    if c == Vitamin then VitaminComposite(r) else Get(r, c)
  }

  /** A composed item holds the item's own cell for every shown nutrient
      other than Vitamin_g and for Energy_kcal, and the composite as Vitamin_g. */
  lemma ComposedCells(r: Row, c: string)
    requires c in ShownNutrients || c == Energy
    ensures Get(ComposedRow(r), c) == ShownValue(r, c)
  {
    ShownFacts();
    InputFacts();
    SelectKeepsComposite(r);
  }

  /** The chart's table has one row per shown nutrient and food item of the group. */
  lemma CompositionLength(t: Table, group: string)
    ensures |Melt(ComposedTable(t, group))| == |ShownNutrients| * |KeepGroups(t.rows, {group})|
  {
    MeltLength(ComposedTable(t, group));
    ShownNutrientsFacts();
    KeepGroupsOfMapped(t.rows, ComposedRow, {group});
  }

  /** Row k * m + i of the chart's table, m being the number of food items of
      the group, is the i-th item's energy, the group, the k-th shown nutrient
      and the item's value for it. */
  lemma CompositionAt(t: Table, group: string, k: nat, i: nat)
    requires k < |ShownNutrients| && i < |KeepGroups(t.rows, {group})|
    ensures
      var items := KeepGroups(t.rows, {group});
      var long := Melt(ComposedTable(t, group));
      && 0 <= k * |items| + i < |long|
      && long[k * |items| + i] == LongRow(Get(items[i], Energy), group, ShownNutrients[k], ShownValue(items[i], ShownNutrients[k]))
  {
    var items := KeepGroups(t.rows, {group});
    var composed := ComposedTable(t, group);
    var c := ShownNutrients[k];
    ShownNutrientsFacts();
    KeepGroupsOfMapped(t.rows, ComposedRow, {group});
    assert composed.rows == MapRows(items, ComposedRow);
    assert |composed.rows| == |items|;
    var item := composed.rows[i];
    assert item == ComposedRow(items[i]);
    MeltAt(composed, k, i);
    assert Melt(composed)[k * |items| + i] == LongRow(Get(item, Energy), item.group, c, Get(item, c));
    assert items[i] in items;
    ComposedCells(items[i], c);
    ComposedCells(items[i], Energy);
  }

  /** The chart's table is empty exactly when no food item belongs to the group. */
  lemma CompositionEmpty(t: Table, group: string)
    ensures Melt(ComposedTable(t, group)) == [] <==> !HasGroup(t.rows, group)
  {
    var items := KeepGroups(t.rows, {group});
    CompositionLength(t, group);
    ShownNutrientsFacts();
    KeepGroupsHasGroup(t.rows, {group}, group);
    if items != [] {
      assert items[0] in items;
    }
  }

  /** Lines 108-118: the long-form table of the chosen food group's
      composition, built by selecting columns, adding Vitamin_g and dropping
      its sources in place, filtering to the group and melting. */
  method Composition(t: Table, group: string) returns (long: seq<LongRow>)
    requires WellFormed(t) && forall c :: c in CompositionInput ==> c in t.columns
    ensures long == Melt(ComposedTable(t, group))
  {
    InputFacts();
    var frame := new Frame(Select(t, CompositionInput));
    var current := frame.rows;
    var composite := seq(|current|, i requires 0 <= i < |current| => VitaminComposite(current[i]));
    frame.SetColumn(Vitamin, composite);
    frame.DropColumns(VitaminSources);
    ComposedColumnsFacts();
    assert frame.rows == MapRows(t.rows, ComposedRow);
    long := Melt(Table(frame.columns, KeepGroups(frame.rows, {group})));
  }
}
