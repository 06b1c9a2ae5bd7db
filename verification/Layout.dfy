/**
  The bytes of a storage file: cell after cell, each a header followed by room for a fixed number
  of elements. Cells and headers never overlap, and a slot list kept in the data storage it
  belongs in stays inside its cell.
 */
module Layout {
  import opened Arithmetic
  import opened Storage

  const HEADER_SIZE: nat := 8
  const INDEX_ENTRY_SIZE: nat := 56
  // the largest number of bytes that can be mapped
  const MAX_MAPPING: nat := 0x7FFF_FFFF_FFFF_FFFF

  /** The bytes from start up to but not including end. */
  datatype Range = Range(start: nat, end: nat) {
    predicate Within(outer: Range) {
      outer.start <= start && end <= outer.end
    }

    predicate Disjoint(other: Range) {
      end <= other.start || other.end <= start
    }
  }

  function CellSize(elemSize: nat, numElems: nat): (r: nat)
    ensures r >= HEADER_SIZE
  {
    elemSize * numElems + HEADER_SIZE
  }

  function CellRange(cellSize: nat, ix: nat): (r: Range) {
    Range(ix * cellSize, ix * cellSize + cellSize)
  }

  function HeaderRange(cellSize: nat, ix: nat): (r: Range) {
    Range(ix * cellSize, ix * cellSize + HEADER_SIZE)
  }

  function SliceRange(cellSize: nat, elemSize: nat, ix: nat, len: nat): (r: Range) {
    Range(cellSize * ix + HEADER_SIZE, cellSize * ix + HEADER_SIZE + elemSize * len)
  }

  lemma CellsDisjoint(cellSize: nat, i: nat, j: nat)
    requires i != j
    ensures CellRange(cellSize, i).Disjoint(CellRange(cellSize, j))
  {
    if i < j {
      assert j * cellSize == i * cellSize + (j - i) * cellSize;
      MulGrows(j - i, cellSize);
    } else {
      assert i * cellSize == j * cellSize + (i - j) * cellSize;
      MulGrows(i - j, cellSize);
    }
  }

  lemma MulGrows(n: nat, x: nat)
    requires n >= 1
    ensures n * x >= x
  {
  }

  lemma CellInMapping(cellSize: nat, pow2: nat, ix: nat)
    requires ix < Pow2(pow2)
    ensures CellRange(cellSize, ix).Within(Range(0, Pow2(pow2) * cellSize))
  {
    assert Pow2(pow2) * cellSize == ix * cellSize + (Pow2(pow2) - ix) * cellSize;
    MulGrows(Pow2(pow2) - ix, cellSize);
  }

  /** A slice stays inside its own cell exactly when it is no longer than the cell has room for. */
  lemma SliceInCell(elemSize: nat, numElems: nat, ix: nat, len: nat)
    requires elemSize > 0
    ensures var cellSize := CellSize(elemSize, numElems);
            SliceRange(cellSize, elemSize, ix, len).Within(CellRange(cellSize, ix)) <==> len <= numElems
  {
  }

  /**
    A list of n slots in cell ix of the data storage it belongs in: its bytes lie inside the
    mapping, clear of its own header and of every byte of every other cell.
   */
  lemma SlotsFit(elemSize: nat, n: nat, pow2: nat, ix: nat, other: nat)
    requires ix < Pow2(pow2) && other < Pow2(pow2) && other != ix
    ensures var cellSize := CellSize(elemSize, Pow2(CeilLog2(n)));
            var slots := SliceRange(cellSize, elemSize, ix, n);
            && slots.Within(Range(0, Pow2(pow2) * cellSize))
            && slots.Disjoint(HeaderRange(cellSize, ix))
            && slots.Disjoint(CellRange(cellSize, other))
            && HeaderRange(cellSize, other).Within(CellRange(cellSize, other))
  {
    CeilLog2Bounds(n);
    hide Pow2, CeilLog2, CellSize;
    var cellSize := CellSize(elemSize, Pow2(CeilLog2(n)));
    SliceFits(elemSize, Pow2(CeilLog2(n)), ix, n);
    CellInMapping(cellSize, pow2, ix);
    CellsDisjoint(cellSize, ix, other);
  }

  lemma SliceFits(elemSize: nat, numElems: nat, ix: nat, len: nat)
    requires len <= numElems
    ensures var cellSize := CellSize(elemSize, numElems); var slice := SliceRange(cellSize, elemSize, ix, len);
            slice.Within(CellRange(cellSize, ix)) && slice.start == CellRange(cellSize, ix).start + HEADER_SIZE
  {
  }

  /**
    The layout leaves no byte unused: a cell is its header and then room for exactly its elements,
    and the cells follow one another from the first byte on.
   */
  lemma CellsTile(elemSize: nat, numElems: nat, ix: nat)
    ensures var cellSize := CellSize(elemSize, numElems); var cell := CellRange(cellSize, ix);
            var header, slots := HeaderRange(cellSize, ix), SliceRange(cellSize, elemSize, ix, numElems);
            && cell.start == header.start && header.end == slots.start && slots.end == cell.end
            && header.end - header.start == 8 && slots.end - slots.start == elemSize * numElems
            && CellRange(cellSize, 0).start == 0 && cell.end == CellRange(cellSize, ix + 1).start
  {
    var cellSize := CellSize(elemSize, numElems);
    assert ix * cellSize == cellSize * ix && (ix + 1) * cellSize == ix * cellSize + cellSize;
  }

  lemma MulSwap(x: nat, y: nat, z: nat)
    ensures (x * y) * z == (x * z) * y
  {
  }

  /** Multiplying a byte offset by the growth factor lands on the cell with the multiplied index. */
  lemma CopyLandsOnCell(cellSize: nat, fromPow2: nat, toPow2: nat, i: nat)
    requires fromPow2 <= toPow2 && i < Pow2(fromPow2)
    ensures var g := Spread(fromPow2, toPow2); var start := (i * cellSize) * g;
            && Range(start, start + cellSize) == CellRange(cellSize, i * g)
            && Range(start, start + cellSize).Within(Range(0, Pow2(toPow2) * cellSize))
  {
    var g := Spread(fromPow2, toPow2);
    hide Pow2, Spread;
    MulSwap(i, cellSize, g);
    ScaleBelow(i, Pow2(fromPow2), g);
    CellInMapping(cellSize, toPow2, i * g);
  }

  /** An index can be mapped exactly up to capacity 2^56. */
  lemma IndexLimit(pow2: nat)
    ensures Pow2(pow2) * CellSize(INDEX_ENTRY_SIZE, 1) <= MAX_MAPPING <==> pow2 <= MAX_CAPACITY_POW2
  {
    Pow2Of56();
    if pow2 <= 56 {
      Pow2Monotone(pow2, 56);
    } else {
      Pow2Monotone(57, pow2);
    }
  }
}
