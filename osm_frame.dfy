/**
 * `_group_features_gdf`: grouping the features of a GeoDataFrame in place.
 *
 * Each row gets one cell per group, holding the group's first matching
 * `key=value` or NA; writing a cell for a column the frame does not have yet
 * adds that column at the end. Group columns that were never written are
 * added empty, and the result is the projection onto the geometry column
 * followed by the group names in filter order.
 */
module OsmFrame {
  import opened Wrappers
  import opened OsmFilters

  /** `srai.constants.GEOMETRY_COLUMN`. */
  const GeometryColumn: string := "geometry"

  /** A frame as a value: column names in order, and one row per feature. */
  datatype Frame = Frame(columns: seq<string>, rows: seq<Row>)

  datatype FrameError = KeyError

  /** `frame.loc[index, name] = value` on one row: a value is stored, None leaves the cell NA. */
  function Assign(row: Row, name: string, value: Option<string>): Row
  {
    match value
    case Some(s) => row[name := s]
    case None => row - {name}
  }

  /** One row after writing, for each name in order, the value the map gives it. */
  function WriteAll(row: Row, values: map<string, Option<string>>, names: seq<string>): Row
  {
    if names == [] then row
    else
      var last := names[|names| - 1];
      Assign(WriteAll(row, values, names[..|names| - 1]), last, if last in values then values[last] else None)
  }

  /** A row after the grouping loop: its group cells are written from its own tags. */
  function GroupedRow(row: Row, g: GroupedFilter): Row
  {
    WriteAll(row, FilterGroups(row, g), Keys(g))
  }

  /** The columns that writing `names` one by one appends to `columns`, in the order they appear. */
  function NewColumns(columns: seq<string>, names: seq<string>): seq<string>
  {
    if names == [] then []
    else
      var earlier := NewColumns(columns, names[..|names| - 1]);
      var last := names[|names| - 1];
      earlier + if last in columns + earlier then [] else [last]
  }

  /** `features_gdf[[GEOMETRY_COLUMN, *grouped_filter_columns]]`. */
  function Projection(rows: seq<Row>, g: GroupedFilter): (f: Frame)
    ensures f.columns == [GeometryColumn] + Keys(g)
    ensures |f.rows| == |rows|
    ensures forall i, c :: 0 <= i < |f.rows| && c in f.rows[i] ==> c in f.columns
  {
    var keep := set c | c in [GeometryColumn] + Keys(g);
    Frame([GeometryColumn] + Keys(g), seq(|rows|, i requires 0 <= i < |rows| => map c | c in rows[i] && c in keep :: rows[i][c]))
  }

  // ---------------------------------------------------------------------------
  // Properties
  // ---------------------------------------------------------------------------

  lemma {:induction false} WriteAllSpec(row: Row, values: map<string, Option<string>>, names: seq<string>, c: string)
    ensures c !in names ==> Get(WriteAll(row, values, names), c) == Get(row, c)
    ensures c in names && c in values ==> Get(WriteAll(row, values, names), c) == values[c]
  {
    if names != [] {
      var p := names[..|names| - 1];
      WriteAllSpec(row, values, p, c);
      assert names == p + [names[|names| - 1]];
    }
  }

  /**
   * After grouping, a row's cell for a group holds that group's first match
   * (NA when there is none), and every other cell is as it was.
   */
  lemma GroupedRowSpec(row: Row, g: GroupedFilter)
    ensures forall c :: c !in Keys(g) ==> Get(GroupedRow(row, g), c) == Get(row, c)
    ensures IsDict(g) ==> forall k :: 0 <= k < |g| ==> Get(GroupedRow(row, g), g[k].0) == FirstMatch(row, g[k].1)
  {
    FilterGroupsSpec(row, g);
    forall c ensures c !in Keys(g) ==> Get(GroupedRow(row, g), c) == Get(row, c) {
      WriteAllSpec(row, FilterGroups(row, g), Keys(g), c);
    }
    if IsDict(g) {
      forall k | 0 <= k < |g| ensures Get(GroupedRow(row, g), g[k].0) == FirstMatch(row, g[k].1) {
        assert Keys(g)[k] == g[k].0;
        WriteAllSpec(row, FilterGroups(row, g), Keys(g), g[k].0);
      }
    }
  }

  /**
   * The appended columns are new, each appended once, and drawn from `names`;
   * afterwards every name is a column.
   */
  lemma {:induction false} NewColumnsSpec(columns: seq<string>, names: seq<string>)
    ensures forall c :: c in NewColumns(columns, names) ==> c in names && c !in columns
    ensures forall a, b :: 0 <= a < b < |NewColumns(columns, names)| ==> NewColumns(columns, names)[a] != NewColumns(columns, names)[b]
    ensures forall c :: c in names ==> c in columns + NewColumns(columns, names)
  {
    if names != [] {
      var p := names[..|names| - 1];
      NewColumnsSpec(columns, p);
      forall c | c in p ensures c in names { var k :| 0 <= k < |p| && p[k] == c; assert names[k] == c; }
      var earlier := NewColumns(columns, p);
      var last := names[|names| - 1];
      assert NewColumns(columns, names) == earlier + if last in columns + earlier then [] else [last];
      forall c | c in names ensures c in columns + NewColumns(columns, names) {
        var k :| 0 <= k < |names| && names[k] == c;
        if k < |p| {
          assert p[k] == c;
          assert c in columns + earlier;
        }
      }
    }
  }

  /** One more name written: `WriteAll` over a prefix grows by one assignment. */
  lemma WriteAllStep(row: Row, values: map<string, Option<string>>, names: seq<string>, k: int)
    requires 0 <= k < |names|
    ensures WriteAll(row, values, names[..k + 1]) ==
      Assign(WriteAll(row, values, names[..k]), names[k], if names[k] in values then values[names[k]] else None)
  {
    assert names[..k + 1][..k] == names[..k];
  }

  /** One more name written: the appended columns of a prefix grow by at most that name. */
  lemma NewColumnsStep(columns: seq<string>, names: seq<string>, k: int)
    requires 0 <= k < |names|
    ensures NewColumns(columns, names[..k + 1]) ==
      NewColumns(columns, names[..k]) + if names[k] in columns + NewColumns(columns, names[..k]) then [] else [names[k]]
  {
    assert names[..k + 1][..k] == names[..k];
  }

  /** Writing names that are all columns already appends nothing. */
  lemma {:induction false} NoNewColumns(columns: seq<string>, names: seq<string>)
    requires forall c :: c in names ==> c in columns
    ensures NewColumns(columns, names) == []
  {
    if names != [] {
      var p := names[..|names| - 1];
      forall c | c in p ensures c in columns { var k :| 0 <= k < |p| && p[k] == c; assert names[k] == c; }
      NoNewColumns(columns, p);
    }
  }

  /**
   * The grouped frame holds, in each row, the geometry and one cell per group
   * with that group's first match for the row's original tags.
   */
  lemma ProjectionCells(rows: seq<Row>, g: GroupedFilter, i: int, k: int)
    requires IsDict(g) && 0 <= i < |rows| && 0 <= k < |g|
    ensures Get(Projection(seq(|rows|, j requires 0 <= j < |rows| => GroupedRow(rows[j], g)), g).rows[i], g[k].0) == FirstMatch(rows[i], g[k].1)
    ensures GeometryColumn !in Keys(g) ==>
      Get(Projection(seq(|rows|, j requires 0 <= j < |rows| => GroupedRow(rows[j], g)), g).rows[i], GeometryColumn) == Get(rows[i], GeometryColumn)
  {
    GroupedRowSpec(rows[i], g);
    assert Keys(g)[k] == g[k].0;
    assert g[k].0 in [GeometryColumn] + Keys(g);
  }

  // ---------------------------------------------------------------------------
  // The frame, updated in place
  // ---------------------------------------------------------------------------

  class FeaturesFrame {
    /** The frame's column names, in order. */
    var columns: seq<string>
    /** One row per feature, in index order. */
    var rows: seq<Row>

    constructor (columns: seq<string>, rows: seq<Row>)
      ensures this.columns == columns && this.rows == rows
    {
      this.columns := columns;
      this.rows := rows;
    }

    /** `.loc[i, name] = value`: writes one cell, adding the column when it is new. */
    method SetCell(i: int, name: string, value: Option<string>)
      requires 0 <= i < |rows|
      modifies this
      ensures columns == old(columns) + if name in old(columns) then [] else [name]
      ensures rows == old(rows)[i := Assign(old(rows)[i], name, value)]
    {
      if name !in columns {
        columns := columns + [name];
      }
      rows := rows[i := Assign(rows[i], name, value)];
    }

    /**
     * The body of the row loop of `_group_features_gdf` for row `i`: compute
     * the row's group values, then write them cell by cell in group order.
     */
    method GroupRow(i: int, g: GroupedFilter)
      requires 0 <= i < |rows|
      modifies this
      ensures columns == old(columns) + NewColumns(old(columns), Keys(g))
      ensures rows == old(rows)[i := GroupedRow(old(rows)[i], g)]
    {
      var groupedFeatures := GetOsmFilterGroups(rows[i], g);
      WriteCells(i, Keys(g), groupedFeatures);
    }

    /** Writes row `i`'s cell for each name in order, from the computed values. */
    method WriteCells(i: int, names: seq<string>, values: map<string, Option<string>>)
      requires 0 <= i < |rows|
      modifies this
      ensures columns == old(columns) + NewColumns(old(columns), names)
      ensures rows == old(rows)[i := WriteAll(old(rows)[i], values, names)]
    {
      var k := 0;
      assert names[..0] == [];
      while k < |names|
        invariant 0 <= k <= |names| && |rows| == |old(rows)|
        invariant columns == old(columns) + NewColumns(old(columns), names[..k])
        invariant rows == old(rows)[i := WriteAll(old(rows)[i], values, names[..k])]
      {
        WriteAllStep(old(rows)[i], values, names, k);
        NewColumnsStep(old(columns), names, k);
        ghost var before := rows;
        SetCell(i, names[k], if names[k] in values then values[names[k]] else None);
        assert rows == before[i := Assign(before[i], names[k], if names[k] in values then values[names[k]] else None)];
        k := k + 1;
      }
      assert names[..|names|] == names;
    }

    /** The `missing_columns` loop: group columns not in the frame are added, empty. */
    method AddMissingColumns(names: seq<string>)
      modifies this
      ensures columns == old(columns) + NewColumns(old(columns), names)
      ensures rows == old(rows)
    {
      var m := 0;
      assert names[..0] == [];
      while m < |names|
        invariant 0 <= m <= |names| && rows == old(rows)
        invariant columns == old(columns) + NewColumns(old(columns), names[..m])
      {
        NewColumnsStep(old(columns), names, m);
        if names[m] !in columns {
          columns := columns + [names[m]];
        }
        m := m + 1;
      }
      assert names[..|names|] == names;
    }

    /** The row loop of `_group_features_gdf`: every row is grouped in index order. */
    method GroupAllRows(g: GroupedFilter)
      modifies this
      ensures columns == if old(rows) == [] then old(columns) else old(columns) + NewColumns(old(columns), Keys(g))
      ensures |rows| == |old(rows)|
      ensures forall i :: 0 <= i < |rows| ==> rows[i] == GroupedRow(old(rows)[i], g)
    {
      var names := Keys(g);
      var n := |rows|;
      ghost var grouped := old(columns) + NewColumns(old(columns), names);
      NewColumnsSpec(old(columns), names);
      NoNewColumns(grouped, names);
      assert grouped + [] == grouped;
      var i := 0;
      while i < n
        invariant 0 <= i <= n && |rows| == n
        invariant columns == if i == 0 then old(columns) else grouped
        invariant forall j :: 0 <= j < i ==> rows[j] == GroupedRow(old(rows)[j], g)
        invariant forall j :: i <= j < n ==> rows[j] == old(rows)[j]
      {
        ghost var before := rows;
        GroupRow(i, g);
        assert rows == before[i := GroupedRow(old(rows)[i], g)];
        i := i + 1;
      }
    }

    /** `_group_features_gdf`. */
    method GroupFeatures(g: GroupedFilter) returns (res: Result<Frame, FrameError>)
      modifies this
      ensures columns == old(columns) + NewColumns(old(columns), Keys(g))
      ensures |rows| == |old(rows)|
      ensures forall i :: 0 <= i < |rows| ==> rows[i] == GroupedRow(old(rows)[i], g)
      ensures res == if GeometryColumn in columns then Ok(Projection(rows, g)) else Err(KeyError)
    {
      var names := Keys(g);
      ghost var grouped := old(columns) + NewColumns(old(columns), names);
      GroupAllRows(g);
      NewColumnsSpec(old(columns), names);
      NoNewColumns(grouped, names);
      assert grouped + [] == grouped;
      AddMissingColumns(names);
      if GeometryColumn in columns {
        res := Ok(Projection(rows, g));
      } else {
        res := Err(KeyError);
      }
    }
  }
}
