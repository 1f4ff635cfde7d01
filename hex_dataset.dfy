/**
 * The GeoVex hexagonal dataset: which cells of a data index can centre a
 * patch, and the square patch of data slots built around each of them.
 *
 * The data index lists cells in row order, and a cell's slot is its row
 * position (the tests build the `data` column as `range(len(regions))`).
 * A cell is a valid centre when its whole disk of radius `r` has data; the
 * lookup table keeps the valid centres in data order. The patch of centre
 * `c` is a zero-filled `(2r+2) x (2r+2)` grid in which the neighbour at
 * local offset `(i, j)` puts its slot at index `[i + r][r - j]`; the last row
 * and the last column are padding.
 */
module HexDataset {
  import opened Wrappers
  import opened HexGeometry

  datatype DatasetError = ValueError | IndexError

  /** The cells of the caller's data table, in row order. */
  type DataIndex = seq<Offset>

  /** The index of a data frame holds no cell twice. */
  predicate Distinct(s: seq<Offset>)
  {
    forall a, b :: 0 <= a < b < |s| ==> s[a] != s[b]
  }

  /** The row position of a cell in the data: its first occurrence. */
  function Slot(data: DataIndex, c: Offset): (s: nat)
    requires c in data
    ensures s < |data| && data[s] == c
    ensures forall k :: 0 <= k < s ==> data[k] != c
  {
    if data[0] == c then 0 else 1 + Slot(data[1..], c)
  }

  /** Every cell of the radius-`r` disk around `c` has data. */
  predicate IsValidCentre(data: DataIndex, r: int, c: Offset)
  {
    Disk(c, r) <= set x | x in data
  }

  /** The cells of `cells` that are valid centres, in their order. */
  function ValidCentres(data: DataIndex, cells: seq<Offset>, r: int): seq<Offset>
  {
    if cells == [] then []
    else (if IsValidCentre(data, r, cells[0]) then [cells[0]] else []) + ValidCentres(data, cells[1..], r)
  }

  /** The lookup table built at construction: the data's valid centres in data order. */
  function LookupTable(data: DataIndex, r: int): seq<Offset>
  {
    ValidCentres(data, data, r)
  }

  /** A constructed dataset: the data, the ring distance and the lookup table. */
  datatype Dataset = Dataset(data: DataIndex, ringDistance: int, lookupTable: seq<Offset>)

  /** A dataset as the constructor leaves it. */
  predicate Valid(ds: Dataset)
  {
    ds.ringDistance >= 2 && ds.lookupTable == LookupTable(ds.data, ds.ringDistance)
  }

  /**
   * `HexagonalDataset(data, neighbourhood, neighbor_k_ring=r)`: a ring distance
   * below 2 is a `ValueError`, raised before the data is looked at.
   */
  function NewDataset(data: DataIndex, ringDistance: int): (r: Result<Dataset, DatasetError>)
    ensures r.Err? <==> ringDistance < 2
    ensures r.Err? ==> r.error == ValueError
    ensures r.Ok? ==> Valid(r.value) && r.value.data == data && r.value.ringDistance == ringDistance
  {
    if ringDistance < 2 then Err(ValueError)
    else Ok(Dataset(data, ringDistance, LookupTable(data, ringDistance)))
  }

  /** `len(dataset)`. */
  function Length(ds: Dataset): nat
  {
    |ds.lookupTable|
  }

  // ---------------------------------------------------------------------------
  // The lookup table
  // ---------------------------------------------------------------------------

  /** The valid centres are the listed cells whose disk has data, kept in the listed order. */
  lemma {:induction false} ValidCentresSpec(data: DataIndex, cells: seq<Offset>, r: int)
    ensures forall c :: c in ValidCentres(data, cells, r) <==> c in cells && IsValidCentre(data, r, c)
    ensures |ValidCentres(data, cells, r)| <= |cells|
    ensures Distinct(cells) ==> Distinct(ValidCentres(data, cells, r))
    ensures Distinct(cells) ==> forall a, b :: 0 <= a < b < |ValidCentres(data, cells, r)| ==>
      Slot(cells, ValidCentres(data, cells, r)[a]) < Slot(cells, ValidCentres(data, cells, r)[b])
  {
    if cells != [] {
      var rest := ValidCentres(data, cells[1..], r);
      ValidCentresSpec(data, cells[1..], r);
      var v := ValidCentres(data, cells, r);
      assert cells == [cells[0]] + cells[1..];
      forall x | x in cells[1..] && x != cells[0] ensures Slot(cells, x) == 1 + Slot(cells[1..], x) { }
      if Distinct(cells) {
        assert Distinct(cells[1..]);
        assert cells[0] !in cells[1..];
      }
    }
  }

  /** The lookup table holds exactly the valid centres of the data, each once, in data order. */
  lemma LookupTableSpec(data: DataIndex, r: int)
    ensures forall c :: c in LookupTable(data, r) <==> c in data && IsValidCentre(data, r, c)
    ensures Distinct(data) ==> Distinct(LookupTable(data, r))
    ensures Distinct(data) ==> forall a, b :: 0 <= a < b < |LookupTable(data, r)| ==>
      Slot(data, LookupTable(data, r)[a]) < Slot(data, LookupTable(data, r)[b])
  {
    ValidCentresSpec(data, data, r);
  }

  /** A sequence without repeats has as many elements as its set. */
  lemma {:induction false} DistinctCardinality(s: seq<Offset>)
    requires Distinct(s)
    ensures |set x | x in s| == |s|
  {
    if s != [] {
      DistinctCardinality(s[1..]);
      assert (set x | x in s) == (set x | x in s[1..]) + {s[0]};
      assert s[0] !in s[1..];
    }
  }

  /** Data covering exactly the cells within `bound` of `root` has that disk as its set of cells. */
  lemma DataIsDisk(data: DataIndex, root: Offset, bound: int)
    requires forall c :: c in data <==> Distance(root, c) <= bound
    ensures (set x | x in data) == Disk(root, bound)
  {
    forall x ensures x in data <==> x in Disk(root, bound) { InDisk(root, bound, x); }
  }

  /** Over such data, a cell is a valid centre exactly when it is within `bound - r` of `root`. */
  lemma ValidCentreOfDisk(data: DataIndex, root: Offset, bound: int, r: nat, c: Offset)
    requires (set x | x in data) == Disk(root, bound)
    ensures IsValidCentre(data, r, c) <==> Distance(root, c) <= bound - r
  {
    DiskInsideDisk(root, bound, c, r);
  }

  /** A sequence whose cells are exactly a set has, without repeats, that set's size. */
  lemma SeqOfSetSize(s: seq<Offset>, cells: set<Offset>)
    requires Distinct(s)
    requires forall x :: x in s <==> x in cells
    ensures |s| == |cells|
  {
    DistinctCardinality(s);
    assert (set x | x in s) == cells;
  }

  /**
   * When the data covers exactly the disk of radius `bound` around `root`, the
   * valid centres are exactly the disk of radius `bound - r` around `root`,
   * and (the data having no repeats) their number is that disk's size.
   */
  lemma LookupTableOfDisk(data: DataIndex, root: Offset, bound: int, r: nat)
    requires forall c :: c in data <==> Distance(root, c) <= bound
    ensures forall c :: c in LookupTable(data, r) <==> Distance(root, c) <= bound - r
    ensures Distinct(data) ==> |LookupTable(data, r)| == |Disk(root, bound - r)|
  {
    LookupTableSpec(data, r);
    DataIsDisk(data, root, bound);
    forall c ensures c in LookupTable(data, r) <==> Distance(root, c) <= bound - r {
      ValidCentreOfDisk(data, root, bound, r, c);
      InDisk(root, bound, c);
    }
    if Distinct(data) {
      forall x ensures x in LookupTable(data, r) <==> x in Disk(root, bound - r) { InDisk(root, bound - r, x); }
      SeqOfSetSize(LookupTable(data, r), Disk(root, bound - r));
    }
  }

  /**
   * The scenario of the length test: the data is a root cell followed by its
   * neighbours up to distance 25; every ring distance from 2 to 4 is accepted
   * and gives as many patches as the radius-(25 - r) disk has cells.
   */
  lemma DatasetLengthScenario(data: DataIndex, root: Offset, r: int)
    requires Distinct(data) && data != [] && data[0] == root
    requires forall c :: c in data <==> Distance(root, c) <= 25
    requires 2 <= r <= 4
    ensures NewDataset(data, r).Ok?
    ensures Length(NewDataset(data, r).value) == |Disk(root, 25 - r)|
  {
    LookupTableOfDisk(data, root, 25, r);
  }

  /** When the first data cell is a valid centre, it is the first entry of the lookup table. */
  lemma FirstCentreIsFirstCell(data: DataIndex, r: int)
    requires data != [] && IsValidCentre(data, r, data[0])
    ensures LookupTable(data, r) != [] && LookupTable(data, r)[0] == data[0]
    ensures Slot(data, LookupTable(data, r)[0]) == 0
  {
  }

  // ---------------------------------------------------------------------------
  // The patch
  // ---------------------------------------------------------------------------

  /** The side of a patch. */
  function Side(r: int): int
  {
    2 * r + 2
  }

  /** The cell whose slot belongs at patch index `[x][y]`: local offset `(x - r, r - y)`. */
  function CellAt(c: Offset, r: int, x: int, y: int): Offset
  {
    Translate(c, Offset(x - r, r - y))
  }

  /** The patch index `[i + r][r - j]` of the cell at local offset `(i, j)` from `c`. */
  function PositionOf(c: Offset, r: int, n: Offset): (int, int)
  {
    (LocalIJ(c, n).i + r, r - LocalIJ(c, n).j)
  }

  /**
   * The value at patch index `[x][y]` for centre `c`: the slot of the cell at
   * offset `(x - r, r - y)` when that cell is in the centre's disk (and has
   * data), and the sentinel 0 everywhere else.
   */
  function PatchAt(data: DataIndex, r: int, c: Offset, x: int, y: int): int
  {
    var n := CellAt(c, r, x, y);
    if Distance(c, n) <= r && n in data then Slot(data, n) else 0
  }

  /** Position and cell are inverse: a disk cell's position lies in the `(2r+1)`-square and maps back to it. */
  lemma PositionRoundTrip(c: Offset, r: int, n: Offset)
    requires Distance(c, n) <= r
    ensures 0 <= PositionOf(c, r, n).0 <= 2 * r && 0 <= PositionOf(c, r, n).1 <= 2 * r
    ensures CellAt(c, r, PositionOf(c, r, n).0, PositionOf(c, r, n).1) == n
  {
  }

  /**
   * Every position `[x][y]` of the patch for a valid centre holds, when its
   * offset `(x - r, r - y)` is within the ring distance, the slot of exactly
   * the cell at that offset; otherwise it holds the sentinel 0.
   */
  lemma PatchRoundTrip(data: DataIndex, r: int, c: Offset, x: int, y: int)
    requires IsValidCentre(data, r, c)
    requires 0 <= x < Side(r) && 0 <= y < Side(r)
    ensures Distance(c, CellAt(c, r, x, y)) <= r ==>
      0 <= PatchAt(data, r, c, x, y) < |data| &&
      data[PatchAt(data, r, c, x, y)] == CellAt(c, r, x, y) &&
      LocalIJ(c, data[PatchAt(data, r, c, x, y)]) == Offset(x - r, r - y)
    ensures Distance(c, CellAt(c, r, x, y)) > r ==> PatchAt(data, r, c, x, y) == 0
  {
    InDisk(c, r, CellAt(c, r, x, y));
  }

  /** The centre's own slot sits at `[r][r]`. */
  lemma PatchCentre(data: DataIndex, r: int, c: Offset)
    requires r >= 0 && c in data
    ensures PatchAt(data, r, c, r, r) == Slot(data, c)
  {
    assert CellAt(c, r, r, r) == c;
  }

  /** The last row and the last column of every patch are padding: sentinel 0. */
  lemma PatchPadding(data: DataIndex, r: int, c: Offset)
    requires r >= 0
    ensures forall x, y :: 0 <= x < Side(r) && 0 <= y < Side(r) && (x == 2 * r + 1 || y == 2 * r + 1) ==>
      PatchAt(data, r, c, x, y) == 0
  {
  }

  /**
   * `ijs.transpose(1, 0, -1)` of the item test, as the picture the test expects:
   * row `y`, column `x` holds the local offset resolved from patch index `[x][y]`.
   */
  const ExpectedPicture: seq<seq<Offset>> := [
    [Offset(0, 0), Offset(0, 0), Offset(0, 2), Offset(1, 2), Offset(2, 2), Offset(0, 0)],
    [Offset(0, 0), Offset(-1, 1), Offset(0, 1), Offset(1, 1), Offset(2, 1), Offset(0, 0)],
    [Offset(-2, 0), Offset(-1, 0), Offset(0, 0), Offset(1, 0), Offset(2, 0), Offset(0, 0)],
    [Offset(-2, -1), Offset(-1, -1), Offset(0, -1), Offset(1, -1), Offset(0, 0), Offset(0, 0)],
    [Offset(-2, -2), Offset(-1, -2), Offset(0, -2), Offset(0, 0), Offset(0, 0), Offset(0, 0)],
    [Offset(0, 0), Offset(0, 0), Offset(0, 0), Offset(0, 0), Offset(0, 0), Offset(0, 0)]
  ]

  lemma ExpectedPictureRow(x: int, y: int)
    requires 0 <= x < 6 && 0 <= y < 6
    ensures |ExpectedPicture| == 6 && |ExpectedPicture[y]| == 6
    ensures Norm(Offset(x - 2, 2 - y)) <= 2 ==> ExpectedPicture[y][x] == Offset(x - 2, 2 - y)
    ensures Norm(Offset(x - 2, 2 - y)) > 2 ==> ExpectedPicture[y][x] == Offset(0, 0)
  {
    if y == 0 {
    } else if y == 1 {
    } else if y == 2 {
    } else if y == 3 {
    } else if y == 4 {
    } else {
    }
  }

  /**
   * The item test with ring distance 2: every slot of the root's patch,
   * resolved back to its cell through the data and then to its local offset
   * from the root, gives the expected picture (transposed). The positions
   * with no neighbour hold sentinel 0, which resolves to the root itself
   * (slot 0) and hence to offset (0, 0).
   */
  lemma PatchPictureRadiusTwo(data: DataIndex, root: Offset)
    requires data != [] && data[0] == root
    requires IsValidCentre(data, 2, root)
    ensures forall x, y :: 0 <= x < 6 && 0 <= y < 6 ==>
      0 <= PatchAt(data, 2, root, x, y) < |data| &&
      LocalIJ(root, data[PatchAt(data, 2, root, x, y)]) == ExpectedPicture[y][x]
  {
    forall x, y | 0 <= x < 6 && 0 <= y < 6
      ensures 0 <= PatchAt(data, 2, root, x, y) < |data|
      ensures LocalIJ(root, data[PatchAt(data, 2, root, x, y)]) == ExpectedPicture[y][x]
    {
      PatchRoundTrip(data, 2, root, x, y);
      ExpectedPictureRow(x, y);
      assert LocalIJ(root, CellAt(root, 2, x, y)) == Offset(x - 2, 2 - y);
    }
  }

  /** With ring distance 2, exactly 19 positions of a patch are neighbour positions. */
  lemma RadiusTwoPatchHasNineteenNeighbours(c: Offset)
    ensures |Disk(c, 2)| == 19
    ensures forall n :: n in Disk(c, 2) ==> 0 <= PositionOf(c, 2, n).0 <= 4 && 0 <= PositionOf(c, 2, n).1 <= 4
  {
    DiskTwoHasNineteenCells(c);
    forall n | n in Disk(c, 2) ensures 0 <= PositionOf(c, 2, n).0 <= 4 && 0 <= PositionOf(c, 2, n).1 <= 4 {
      InDisk(c, 2, n);
      PositionRoundTrip(c, 2, n);
    }
  }

  /**
   * Building the patch of a valid centre: start from zeros, then for each
   * cell of the centre's disk write its slot at `[i + r][r - j]`.
   */
  method BuildPatch(data: DataIndex, r: int, c: Offset) returns (patch: array2<int>)
    requires r >= 2 && IsValidCentre(data, r, c)
    ensures fresh(patch)
    ensures patch.Length0 == Side(r) && patch.Length1 == Side(r)
    ensures forall x, y :: 0 <= x < Side(r) && 0 <= y < Side(r) ==> patch[x, y] == PatchAt(data, r, c, x, y)
  {
    var side := 2 * r + 2;
    patch := new int[side, side]((x, y) => 0);
    var remaining := Disk(c, r);
    ghost var neighbours := remaining;
    ghost var done: set<Offset> := {};
    forall o | o in remaining ensures Distance(c, o) <= r && o in data { InDisk(c, r, o); }
    while remaining != {}
      invariant done !! remaining && done + remaining == neighbours
      invariant forall o :: o in remaining ==> Distance(c, o) <= r && o in data
      invariant forall o :: o in done ==> o in data
      invariant patch.Length0 == side && patch.Length1 == side
      invariant forall x, y :: 0 <= x < side && 0 <= y < side ==> patch[x, y] == Partial(data, r, c, done, x, y)
      decreases remaining
    {
      var n :| n in remaining;
      WriteSlot(patch, data, r, c, done, n);
      remaining := remaining - {n};
      done := done + {n};
    }
    PartialComplete(data, r, c);
  }

  /** One step of the patch loop: write the slot of disk cell `n` at its position. */
  method WriteSlot(patch: array2<int>, data: DataIndex, r: int, c: Offset, ghost done: set<Offset>, n: Offset)
    requires patch.Length0 == Side(r) && patch.Length1 == Side(r)
    requires forall o :: o in done ==> o in data
    requires Distance(c, n) <= r && n in data
    requires forall x, y :: 0 <= x < Side(r) && 0 <= y < Side(r) ==> patch[x, y] == Partial(data, r, c, done, x, y)
    modifies patch
    ensures forall x, y :: 0 <= x < Side(r) && 0 <= y < Side(r) ==> patch[x, y] == Partial(data, r, c, done + {n}, x, y)
  {
    PositionRoundTrip(c, r, n);
    PartialStep(data, r, c, done, n);
    var ij := LocalIJ(c, n);
    var px, py := ij.i + r, r - ij.j;
    patch[px, py] := Slot(data, n);
    assert forall x, y :: 0 <= x < Side(r) && 0 <= y < Side(r) && !(x == px && y == py) ==> patch[x, y] == old(patch[x, y]);
  }

  /** The patch after the cells `done` of the disk have been written. */
  function Partial(data: DataIndex, r: int, c: Offset, done: set<Offset>, x: int, y: int): int
    requires forall o :: o in done ==> o in data
  {
    if CellAt(c, r, x, y) in done then Slot(data, CellAt(c, r, x, y)) else 0
  }

  /** Writing cell `n` changes the partial patch at `n`'s position only. */
  lemma PartialStep(data: DataIndex, r: int, c: Offset, done: set<Offset>, n: Offset)
    requires forall o :: o in done ==> o in data
    requires n in data
    ensures forall x, y :: (x, y) != PositionOf(c, r, n) ==> Partial(data, r, c, done + {n}, x, y) == Partial(data, r, c, done, x, y)
    ensures Partial(data, r, c, done + {n}, PositionOf(c, r, n).0, PositionOf(c, r, n).1) == Slot(data, n)
  {
    CellAtInjective(c, r, n);
  }

  /** Once the whole disk is written, the partial patch is the patch. */
  lemma PartialComplete(data: DataIndex, r: int, c: Offset)
    requires forall o :: o in Disk(c, r) ==> o in data
    ensures forall x, y :: Partial(data, r, c, Disk(c, r), x, y) == PatchAt(data, r, c, x, y)
  {
    forall x, y ensures Partial(data, r, c, Disk(c, r), x, y) == PatchAt(data, r, c, x, y) {
      InDisk(c, r, CellAt(c, r, x, y));
    }
  }

  /** Only the position of a cell holds that cell. */
  lemma CellAtInjective(c: Offset, r: int, n: Offset)
    ensures forall x, y :: CellAt(c, r, x, y) == n ==> (x, y) == PositionOf(c, r, n)
  {
  }

  /**
   * `dataset[index]`: the patch of the index-th valid centre, or an
   * `IndexError` outside `0 <= index < len(dataset)`.
   */
  method GetItem(ds: Dataset, index: int) returns (res: Result<array2<int>, DatasetError>)
    requires Valid(ds)
    ensures !(0 <= index < Length(ds)) <==> res.Err?
    ensures res.Err? ==> res.error == IndexError
    ensures res.Ok? ==> fresh(res.value) && res.value.Length0 == Side(ds.ringDistance) && res.value.Length1 == Side(ds.ringDistance)
    ensures res.Ok? ==> forall x, y :: 0 <= x < Side(ds.ringDistance) && 0 <= y < Side(ds.ringDistance) ==>
      res.value[x, y] == PatchAt(ds.data, ds.ringDistance, ds.lookupTable[index], x, y)
  {
    if index < 0 || index >= |ds.lookupTable| {
      return Err(IndexError);
    }
    var centre := ds.lookupTable[index];
    LookupTableSpec(ds.data, ds.ringDistance);
    var patch := BuildPatch(ds.data, ds.ringDistance, centre);
    res := Ok(patch);
  }

  /**
   * The scenario of the item test: the data is the root followed by its
   * neighbours up to distance 25, and the ring distance is 2. The dataset is
   * built, its first item is the patch of the root, and resolving each entry
   * of that item to its cell and then to its local offset from the root gives
   * the expected picture, transposed.
   */
  method DatasetItemScenario(data: DataIndex, root: Offset) returns (item: array2<int>)
    requires data != [] && data[0] == root
    requires forall c :: c in data <==> Distance(root, c) <= 25
    ensures item.Length0 == 6 && item.Length1 == 6
    ensures forall x, y :: 0 <= x < 6 && 0 <= y < 6 ==>
      0 <= item[x, y] < |data| && LocalIJ(root, data[item[x, y]]) == ExpectedPicture[y][x]
  {
    DataIsDisk(data, root, 25);
    ValidCentreOfDisk(data, root, 25, 2, root);
    FirstCentreIsFirstCell(data, 2);
    PatchPictureRadiusTwo(data, root);
    var ds := NewDataset(data, 2).value;
    var res := GetItem(ds, 0);
    item := res.value;
  }
}
