/**
 * Hexagonal grid geometry in H3 local IJ coordinates.
 *
 * A cell is named by its IJ coordinates on one planar coordinate patch; the
 * local offset of one cell from another (`get_local_ij_index`) is the
 * difference of their coordinates. In these axes the six neighbours of a
 * cell lie at offsets (1,0), (1,1), (0,1), (-1,0), (-1,-1), (0,-1), so the
 * grid distance of an offset (i, j) is max(|i|, |j|, |i - j|).
 */
module HexGeometry {

  /** A cell's IJ coordinates, or the offset between two cells. */
  datatype Offset = Offset(i: int, j: int)

  function Abs(x: int): nat
  {
    if x < 0 then -x else x
  }

  function Max(a: int, b: int): int
  {
    if a < b then b else a
  }

  /** The hex distance of an offset from (0, 0). */
  function Norm(d: Offset): nat
  {
    Max(Max(Abs(d.i), Abs(d.j)), Abs(d.i - d.j))
  }

  /** `get_local_ij_index(origin, target)`: target's position relative to origin. */
  function LocalIJ(origin: Offset, target: Offset): Offset
  {
    Offset(target.i - origin.i, target.j - origin.j)
  }

  /** The cell at offset `d` from `c`. */
  function Translate(c: Offset, d: Offset): Offset
  {
    Offset(c.i + d.i, c.j + d.j)
  }

  /** Hex grid distance between two cells. */
  function Distance(a: Offset, b: Offset): nat
  {
    Norm(LocalIJ(a, b))
  }

  /** The six neighbours of a cell, and the axes a disk is built from. */
  const Directions: seq<Offset> :=
    [Offset(1, 0), Offset(1, 1), Offset(0, 1), Offset(-1, 0), Offset(-1, -1), Offset(0, -1)]

  /**
   * The filled disk of radius `k` around `c` (the neighbourhood query with the
   * centre included); empty for a negative radius.
   */
  function Disk(c: Offset, k: int): set<Offset>
  {
    set i: int, j: int | -k <= i <= k && -k <= j <= k && Norm(Offset(i, j)) <= k :: Translate(c, Offset(i, j))
  }

  // ---------------------------------------------------------------------------
  // Properties
  // ---------------------------------------------------------------------------

  lemma TranslateLocal(c: Offset, o: Offset)
    ensures Translate(c, LocalIJ(c, o)) == o
    ensures LocalIJ(c, Translate(c, o)) == o
  {
  }

  /** The disk of radius `k` around `c` is exactly the cells within distance `k` of `c`. */
  lemma InDisk(c: Offset, k: int, o: Offset)
    ensures o in Disk(c, k) <==> Distance(c, o) <= k
  {
    var d := LocalIJ(c, o);
    if Distance(c, o) <= k {
      assert Translate(c, Offset(d.i, d.j)) == o;
    }
  }

  /** The neighbours of a cell are exactly the cells at distance 1 from it. */
  lemma DirectionsAreNeighbours(d: Offset)
    ensures Norm(d) == 1 <==> d in Directions
  {
  }

  /** Hex distance obeys the triangle inequality. */
  lemma NormTriangle(a: Offset, b: Offset)
    ensures Norm(Translate(a, b)) <= Norm(a) + Norm(b)
  {
    AbsTriangle(a.i, b.i);
    AbsTriangle(a.j, b.j);
    AbsTriangle(a.i - a.j, b.i - b.j);
    assert (a.i + b.i) - (a.j + b.j) == (a.i - a.j) + (b.i - b.j);
    NormBounds(a);
    NormBounds(b);
    NormBounds(Translate(a, b));
  }

  lemma AbsTriangle(x: int, y: int)
    ensures Abs(x + y) <= Abs(x) + Abs(y)
  {
  }

  /** The norm is the largest of its three components. */
  lemma NormBounds(d: Offset)
    ensures Abs(d.i) <= Norm(d) && Abs(d.j) <= Norm(d) && Abs(d.i - d.j) <= Norm(d)
    ensures Norm(d) == Abs(d.i) || Norm(d) == Abs(d.j) || Norm(d) == Abs(d.i - d.j)
  {
  }

  lemma DistanceTriangle(a: Offset, b: Offset, c: Offset)
    ensures Distance(a, c) <= Distance(a, b) + Distance(b, c)
  {
    NormTriangle(LocalIJ(a, b), LocalIJ(b, c));
    assert Translate(LocalIJ(a, b), LocalIJ(b, c)) == LocalIJ(a, c);
  }

  /**
   * For every offset `d` and radius `r`, some offset of norm `r` leads
   * straight away from the origin: adding it to `d` adds `r` to the norm.
   */
  function AwayFrom(d: Offset, r: nat): (e: Offset)
    ensures Norm(e) == r
    ensures Norm(Translate(d, e)) == Norm(d) + r
  {
    var n: int := r;
    if d.i >= 0 && d.j >= 0 then Offset(n, n)
    else if d.i >= 0 then Offset(n, 0)
    else if d.j >= 0 then Offset(-n, 0)
    else Offset(-n, -n)
  }

  /**
   * A disk of radius `r` around `c` lies inside the disk of radius `bound`
   * around `root` exactly when `c` is within `bound - r` of `root`.
   */
  lemma DiskInsideDisk(root: Offset, bound: int, c: Offset, r: nat)
    ensures Disk(c, r) <= Disk(root, bound) <==> Distance(root, c) <= bound - r
  {
    if Distance(root, c) <= bound - r {
      forall o | o in Disk(c, r) ensures o in Disk(root, bound) {
        InDisk(c, r, o);
        DistanceTriangle(root, c, o);
        InDisk(root, bound, o);
      }
    } else {
      var far := Translate(c, AwayFrom(LocalIJ(root, c), r));
      assert Distance(c, far) == r by { TranslateLocal(c, AwayFrom(LocalIJ(root, c), r)); }
      InDisk(c, r, far);
      assert LocalIJ(root, far) == Translate(LocalIJ(root, c), AwayFrom(LocalIJ(root, c), r));
      InDisk(root, bound, far);
    }
  }

  /** The offsets of hex norm at most 2, row by row (rows have equal `j`). */
  const RowTwo: set<Offset> := {Offset(0, 2), Offset(1, 2), Offset(2, 2)}
  const RowOne: set<Offset> := {Offset(-1, 1), Offset(0, 1), Offset(1, 1), Offset(2, 1)}
  const RowZero: set<Offset> := {Offset(-2, 0), Offset(-1, 0), Offset(0, 0), Offset(1, 0), Offset(2, 0)}
  const RowMinusOne: set<Offset> := {Offset(-2, -1), Offset(-1, -1), Offset(0, -1), Offset(1, -1)}
  const RowMinusTwo: set<Offset> := {Offset(-2, -2), Offset(-1, -2), Offset(0, -2)}

  /** The 19 offsets pinned as the filled cells of the radius-2 patch. */
  const NormTwoOffsets: set<Offset> := RowTwo + RowOne + RowZero + RowMinusOne + RowMinusTwo

  lemma NormTwoOffsetsExact(d: Offset)
    ensures Norm(d) <= 2 <==> d in NormTwoOffsets
  {
    if Norm(d) <= 2 {
      if d.i == -2 {
        assert d.j == -2 || d.j == -1 || d.j == 0;
      } else if d.i == -1 {
        assert d.j == -2 || d.j == -1 || d.j == 0 || d.j == 1;
      } else if d.i == 0 {
        assert d.j == -2 || d.j == -1 || d.j == 0 || d.j == 1 || d.j == 2;
      } else if d.i == 1 {
        assert d.j == -1 || d.j == 0 || d.j == 1 || d.j == 2;
      } else {
        assert d.i == 2;
        assert d.j == 0 || d.j == 1 || d.j == 2;
      }
    }
  }

  lemma RowSizes()
    ensures |RowTwo| == 3 && |RowOne| == 4 && |RowZero| == 5 && |RowMinusOne| == 4 && |RowMinusTwo| == 3
  {
  }

  lemma RowsOnLines()
    ensures forall o :: o in RowTwo ==> o.j == 2
    ensures forall o :: o in RowOne ==> o.j == 1
    ensures forall o :: o in RowZero ==> o.j == 0
    ensures forall o :: o in RowMinusOne ==> o.j == -1
    ensures forall o :: o in RowMinusTwo ==> o.j == -2
  {
  }

  lemma DisjointUnionSize(a: set<Offset>, b: set<Offset>)
    requires a !! b
    ensures |a + b| == |a| + |b|
  {
  }

  lemma NormTwoOffsetsSize()
    ensures |NormTwoOffsets| == 19
  {
    RowSizes();
    RowsOnLines();
    DisjointUnionSize(RowTwo, RowOne);
    DisjointUnionSize(RowTwo + RowOne, RowZero);
    DisjointUnionSize(RowTwo + RowOne + RowZero, RowMinusOne);
    DisjointUnionSize(RowTwo + RowOne + RowZero + RowMinusOne, RowMinusTwo);
  }

  /** The radius-2 disk in the picture of the tests holds exactly 19 cells. */
  lemma DiskTwoHasNineteenCells(c: Offset)
    ensures |Disk(c, 2)| == 19
  {
    var cells := set d | d in NormTwoOffsets :: Translate(c, d);
    forall o ensures o in Disk(c, 2) <==> o in cells {
      InDisk(c, 2, o);
      TranslateLocal(c, o);
      NormTwoOffsetsExact(LocalIJ(c, o));
      if o in cells {
        var d :| d in NormTwoOffsets && Translate(c, d) == o;
        assert LocalIJ(c, o) == d;
      }
    }
    assert Disk(c, 2) == cells;
    TranslateInjective(c, NormTwoOffsets);
    NormTwoOffsetsSize();
  }

  /** Translating a set of offsets keeps its size. */
  lemma TranslateInjective(c: Offset, offsets: set<Offset>)
    ensures |set d | d in offsets :: Translate(c, d)| == |offsets|
  {
    if offsets != {} {
      var d0 :| d0 in offsets;
      var rest := offsets - {d0};
      TranslateInjective(c, rest);
      var image := set d | d in offsets :: Translate(c, d);
      var restImage := set d | d in rest :: Translate(c, d);
      assert image == restImage + {Translate(c, d0)};
      forall d | d in rest ensures Translate(c, d) != Translate(c, d0) { }
    }
  }
}
