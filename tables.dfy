/** The in-memory nutrition table: cells that may be missing, rows keyed by
    their FoodGroup, tables with an ordered list of numeric columns, and the
    row and column selections the dashboard applies to them. */
module Tables {

  datatype Option<T> = None | Some(value: T)

  datatype Result<T, E> = Ok(value: T) | Err(error: E)

  /** A numeric cell; None is a missing value (NaN in the data frame). */
  type Cell = Option<real>

  /** One food item: its FoodGroup and its numeric cells by column name. */
  datatype Row = Row(group: string, cells: map<string, Cell>)

  /** A data frame: its numeric columns in order and its rows. The FoodGroup
      column is the key every row carries, so it is not listed in `columns`. */
  datatype Table = Table(columns: seq<string>, rows: seq<Row>)

  const Energy := "Energy_kcal"

  /** The nutrient columns the dashboard offers (data_dashboard.py:41-45). */
  const NutritionColumns: seq<string> :=
    ["Protein_g", "Fat_g", "Carb_g",
     "Sugar_g", "Fiber_g", "VitA_g", "VitB6_g", "VitB12_g", "VitC_g",
     "VitE_g", "Folate_g", "Niacin_g", "Riboflavin_g", "Thiamin_g",
     "Calcium_g", "Copper_g", "Iron_g", "Magnesium_g", "Manganese_g",
     "Phosphorus_g", "Selenium_g", "Zinc_g"]

  function Min(a: int, b: int): int {
    if a <= b then a else b
  }

  predicate NoDuplicates<T(==)>(s: seq<T>) {
    forall i, j :: 0 <= i < j < |s| ==> s[i] != s[j]
  }

  lemma NoDuplicatesAppend<T>(a: seq<T>, b: seq<T>)
    requires NoDuplicates(a) && NoDuplicates(b)
    requires forall x :: x in a ==> x !in b
    ensures NoDuplicates(a + b)
  {
    forall i, j | 0 <= i < j < |a + b|
      ensures (a + b)[i] != (a + b)[j]
    {
      if i < |a| && j >= |a| {
        assert (a + b)[i] in a && (a + b)[j] == b[j - |a|];
      }
    }
  }

  /** Two sequences without repeats that hold the same elements have the same length. */
  lemma SameElementsSameLength<T>(a: seq<T>, b: seq<T>)
    requires NoDuplicates(a) && NoDuplicates(b)
    requires forall x :: x in a <==> x in b
    ensures |a| == |b|
  {
    DistinctCard(a);
    DistinctCard(b);
    assert (set x | x in a) == (set x | x in b);
  }

  /** A sequence without repeats has as many elements as its set. */
  lemma {:induction false} DistinctCard<T>(s: seq<T>)
    requires NoDuplicates(s)
    ensures |set x | x in s| == |s|
  {
    if s != [] {
      var n := |s| - 1;
      DistinctCard(s[..n]);
      assert (set x | x in s) == (set x | x in s[..n]) + {s[n]};
      assert s[n] !in (set x | x in s[..n]);
    }
  }

  /** No column is named twice and every row holds exactly the table's columns. */
  ghost predicate WellFormed(t: Table) {
    && NoDuplicates(t.columns)
    && forall i, c :: 0 <= i < |t.rows| ==> (c in t.rows[i].cells <==> c in t.columns)
  }

  /** The cell of column c in row r; a column the row lacks reads as missing. */
  function Get(r: Row, c: string): Cell {
    if c in r.cells then r.cells[c] else None
  }

  /** Some row belongs to group g. */
  predicate HasGroup(rows: seq<Row>, g: string) {
    exists i :: 0 <= i < |rows| && rows[i].group == g
  }

  lemma HasGroupAppend(a: seq<Row>, b: seq<Row>, g: string)
    ensures HasGroup(a + b, g) <==> HasGroup(a, g) || HasGroup(b, g)
  {
    if HasGroup(a + b, g) {
      var i :| 0 <= i < |a + b| && (a + b)[i].group == g;
      if i >= |a| {
        assert b[i - |a|].group == g;
      }
    }
    if HasGroup(a, g) {
      var i :| 0 <= i < |a| && a[i].group == g;
      assert (a + b)[i].group == g;
    }
    if HasGroup(b, g) {
      var i :| 0 <= i < |b| && b[i].group == g;
      assert (a + b)[|a| + i].group == g;
    }
  }

  /** The sort key that reads column c of a row. */
  function ColumnKey(c: string): Row -> Cell {
    r => Get(r, c)
  }

  /** Row r restricted to the columns cols. */
  function SelectRow(r: Row, cols: seq<string>): Row {
    Row(r.group, map c | c in cols && c in r.cells :: r.cells[c])
  }

  /** `df[cols]`: the columns cols of t, in the order given. Naming a column
      the table lacks is a KeyError in the data frame. */
  function Select(t: Table, cols: seq<string>): (r: Table)
    requires WellFormed(t) && NoDuplicates(cols)
    requires forall c :: c in cols ==> c in t.columns
    ensures WellFormed(r) && r.columns == cols && |r.rows| == |t.rows|
    ensures forall i :: 0 <= i < |r.rows| ==> r.rows[i].group == t.rows[i].group
    ensures forall i, c :: 0 <= i < |r.rows| && c in cols ==> Get(r.rows[i], c) == Get(t.rows[i], c)
    ensures forall i, c :: 0 <= i < |r.rows| && c !in cols ==> Get(r.rows[i], c).None?
  {
    Table(cols, seq(|t.rows|, i requires 0 <= i < |t.rows| => SelectRow(t.rows[i], cols)))
  }

  /** The columns of cols that are not in names, in their order. */
  function Without(cols: seq<string>, names: seq<string>): (r: seq<string>)
    ensures forall c :: c in r <==> c in cols && c !in names
    ensures NoDuplicates(cols) ==> NoDuplicates(r)
    ensures |r| <= |cols|
  {
    if cols == [] then []
    else
      var rest := Without(cols[..|cols| - 1], names);
      var last := cols[|cols| - 1];
      assert forall c :: c in cols <==> c in cols[..|cols| - 1] || c == last by {
        assert cols == cols[..|cols| - 1] + [last];
      }
      if last in names then rest else rest + [last]
  }

  lemma {:induction false} WithoutAppend(a: seq<string>, b: seq<string>, names: seq<string>)
    ensures Without(a + b, names) == Without(a, names) + Without(b, names)
  {
    if b != [] {
      var n := |b| - 1;
      WithoutAppend(a, b[..n], names);
      assert (a + b)[..|a + b| - 1] == a + b[..n];
    } else {
      assert a + b == a;
    }
  }

  /** Removing names that do not occur changes nothing. */
  lemma {:induction false} WithoutNone(cols: seq<string>, names: seq<string>)
    requires forall c :: c in cols ==> c !in names
    ensures Without(cols, names) == cols
  {
    if cols != [] {
      WithoutNone(cols[..|cols| - 1], names);
      assert cols[|cols| - 1] in cols;
    }
  }

  /** Removing every column leaves none. */
  lemma {:induction false} WithoutAll(cols: seq<string>, names: seq<string>)
    requires forall c :: c in cols ==> c in names
    ensures Without(cols, names) == []
  {
    if cols != [] {
      WithoutAll(cols[..|cols| - 1], names);
      assert cols[|cols| - 1] in cols;
    }
  }

  /** `df.loc[df['FoodGroup'].isin(gs)]`: the rows whose group is in gs, in order. */
  function KeepGroups(rows: seq<Row>, gs: set<string>): (r: seq<Row>)
    ensures |r| <= |rows|
    ensures forall x :: x in r <==> x in rows && x.group in gs
  {
    if rows == [] then []
    else
      var last := rows[|rows| - 1];
      assert rows == rows[..|rows| - 1] + [last];
      KeepGroups(rows[..|rows| - 1], gs) + (if last.group in gs then [last] else [])
  }

  /** Filtering keeps every row of a group in gs as often as it occurs, and no
      other row. */
  lemma {:induction false} KeepGroupsCount(rows: seq<Row>, gs: set<string>, x: Row)
    ensures multiset(KeepGroups(rows, gs))[x] == if x.group in gs then multiset(rows)[x] else 0
  {
    if rows != [] {
      var n := |rows| - 1;
      KeepGroupsCount(rows[..n], gs, x);
      assert rows == rows[..n] + [rows[n]];
    }
  }

  /** Filtering keeps the rows in their input order: it splits over a concatenation. */
  lemma {:induction false} KeepGroupsAppend(a: seq<Row>, b: seq<Row>, gs: set<string>)
    ensures KeepGroups(a + b, gs) == KeepGroups(a, gs) + KeepGroups(b, gs)
  {
    if b != [] {
      var n := |b| - 1;
      KeepGroupsAppend(a, b[..n], gs);
      assert (a + b)[..|a + b| - 1] == a + b[..n];
    } else {
      assert a + b == a;
    }
  }

  /** A single row is kept exactly when its group is selected. */
  lemma KeepGroupsOne(x: Row, gs: set<string>)
    ensures KeepGroups([x], gs) == if x.group in gs then [x] else []
  {
    assert [x][..0] == [];
  }

  /** The rows with f applied to each one. */
  function MapRows(rows: seq<Row>, f: Row -> Row): (r: seq<Row>)
    ensures |r| == |rows|
    ensures forall i :: 0 <= i < |rows| ==> r[i] == f(rows[i])
  {
    seq(|rows|, i requires 0 <= i < |rows| => f(rows[i]))
  }

  lemma MapRowsAppend(a: seq<Row>, b: seq<Row>, f: Row -> Row)
    ensures MapRows(a + b, f) == MapRows(a, f) + MapRows(b, f)
  {
  }

  /** Filtering commutes with a per-row map that keeps each row's group. */
  lemma {:induction false} KeepGroupsOfMapped(rows: seq<Row>, f: Row -> Row, gs: set<string>)
    requires forall x :: f(x).group == x.group
    ensures KeepGroups(MapRows(rows, f), gs) == MapRows(KeepGroups(rows, gs), f)
  {
    if rows != [] {
      var n := |rows| - 1;
      var init, last := rows[..n], rows[n];
      var tail := if last.group in gs then [last] else [];
      var mapped := MapRows(rows, f);
      assert mapped[..n] == MapRows(init, f);
      assert KeepGroups(mapped, gs) == KeepGroups(MapRows(init, f), gs) + MapRows(tail, f);
      KeepGroupsOfMapped(init, f, gs);
      MapRowsAppend(KeepGroups(init, gs), tail, f);
    }
  }

  /** `pd.concat(blocks)`: the blocks one after the other. */
  function Concat<T>(blocks: seq<seq<T>>): seq<T> {
    if blocks == [] then [] else Concat(blocks[..|blocks| - 1]) + blocks[|blocks| - 1]
  }

  lemma MulStep(i: nat, n: nat, w: nat, j: nat)
    requires i < n && j < w
    ensures 0 <= i * w + j < n * w
  {
    assert (i + 1) * w <= n * w by {
      assert i + 1 <= n;
    }
  }

  /** Blocks of equal width w concatenate to |blocks| * w entries. */
  lemma {:induction false} ConcatLength<T>(blocks: seq<seq<T>>, w: nat)
    requires forall k :: 0 <= k < |blocks| ==> |blocks[k]| == w
    ensures |Concat(blocks)| == |blocks| * w
  {
    if blocks != [] {
      var n := |blocks| - 1;
      ConcatLength(blocks[..n], w);
      assert |Concat(blocks)| == n * w + w;
      assert n * w + w == (n + 1) * w;
    }
  }

  /** Concatenating blocks of equal width w puts entry j of block i at i * w + j. */
  lemma {:induction false} ConcatAt<T>(blocks: seq<seq<T>>, w: nat, i: nat, j: nat)
    requires forall k :: 0 <= k < |blocks| ==> |blocks[k]| == w
    requires i < |blocks| && j < w
    ensures 0 <= i * w + j < |Concat(blocks)| && Concat(blocks)[i * w + j] == blocks[i][j]
  {
    var n := |blocks| - 1;
    ConcatLength(blocks, w);
    ConcatLength(blocks[..n], w);
    MulStep(i, |blocks|, w, j);
    if i < n {
      ConcatAt(blocks[..n], w, i, j);
    }
  }
}
