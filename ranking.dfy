/** The "Average Amount of Energy in Food Groups" bar chart: the mean energy of
    every food group, sorted in place from the highest mean down. */
module Ranking {
  import opened Tables
  import opened Ordering
  import opened Aggregate
  import opened Frames

  /** `groupby('FoodGroup')[['Energy_kcal']].mean().reset_index()` followed by
      `sort_values(by='Energy_kcal', ascending=False, inplace=True)`: one row
      per food group of t carrying that group's mean energy, highest first and
      groups without any energy value last. The order is the one the radar
      chart draws its five groups from. */
  method EnergyRanking(t: Table) returns (ranking: seq<Row>)
    requires WellFormed(t) && Energy in t.columns
    ensures ranking == RankByEnergy(t)
    ensures forall i, c :: 0 <= i < |ranking| ==> (c in ranking[i].cells <==> c == Energy)
  {
    var means := GroupMeans(t, [Energy]);
    var frame := new Frame(means);
    frame.SortValuesDescending(Energy);
    ranking := frame.rows;
    assert ranking == RankByEnergy(t);
    forall i, c | 0 <= i < |ranking|
      ensures c in ranking[i].cells <==> c == Energy
    {
      assert c in ranking[i].cells <==> c in [Energy];
    }
  }
}
