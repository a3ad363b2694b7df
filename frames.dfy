/** The data frames the dashboard changes in place: a new column assigned,
    columns dropped, rows sorted. */
module Frames {
  import opened Tables
  import opened Ordering

  class Frame {
    var columns: seq<string>
    var rows: seq<Row>

    ghost predicate Valid()
      reads this
    {
      WellFormed(Table(columns, rows))
    }

    constructor (t: Table)
      requires WellFormed(t)
      ensures Valid() && columns == t.columns && rows == t.rows
    {
      columns := t.columns;
      rows := t.rows;
    }

    /** `df[name] = values`: replaces column name where it exists, otherwise
        appends it as the last column. */
    method SetColumn(name: string, values: seq<Cell>)
      requires Valid() && |values| == |rows|
      modifies this
      ensures Valid()
      ensures columns == if name in old(columns) then old(columns) else old(columns) + [name]
      ensures |rows| == |old(rows)|
      ensures forall i :: 0 <= i < |rows| ==>
        rows[i] == Row(old(rows)[i].group, old(rows)[i].cells[name := values[i]])
    {
      if name !in columns {
        columns := columns + [name];
      }
      var current := rows;
      rows := seq(|current|, i requires 0 <= i < |current| => Row(current[i].group, current[i].cells[name := values[i]]));
    }

    /** `df.drop(columns=names, inplace=True)`: dropping a column the frame
        lacks is a KeyError. */
    method DropColumns(names: seq<string>)
      requires Valid() && forall n :: n in names ==> n in columns
      modifies this
      ensures Valid()
      ensures columns == Without(old(columns), names)
      ensures |rows| == |old(rows)|
      ensures forall i :: 0 <= i < |rows| ==>
        rows[i] == Row(old(rows)[i].group, old(rows)[i].cells - (set n | n in names))
    {
      var current := rows;
      columns := Without(columns, names);
      rows := seq(|current|, i requires 0 <= i < |current| => Row(current[i].group, current[i].cells - (set n | n in names)));
    }

    /** `df.sort_values(by=column, ascending=False, inplace=True)`. */
    method SortValuesDescending(column: string)
      requires Valid() && column in columns
      modifies this
      ensures Valid() && columns == old(columns)
      ensures rows == SortDesc(old(rows), ColumnKey(column))
    {
      var sorted := SortDesc(rows, ColumnKey(column));
      forall i | 0 <= i < |sorted|
        ensures sorted[i] in rows
      {
        assert sorted[i] in multiset(rows);
      }
      rows := sorted;
    }
  }
}
