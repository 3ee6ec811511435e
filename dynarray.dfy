/** A resizable two-dimensional buffer. Resizing keeps every cell that lies
    inside both the old and the new dimensions; cells that only the new
    dimensions cover hold unspecified values (the source leaves freshly
    allocated memory uninitialised). Reads and writes are not bounds checked,
    so an in-range index is a precondition. */
module CivilDynArray {

  class DynArray<T(0)> {
    /** The cells; `m_pItems` in the source, one row per allocation there. */
    var items: array2<T>
    var rowCount: nat
    var colCount: nat

    predicate Valid()
      reads this
    {
      items.Length0 == rowCount && items.Length1 == colCount
    }

    /** `DynArray()`: no rows and no columns. */
    constructor Empty()
      ensures Valid() && fresh(items)
      ensures rowCount == 0 && colCount == 0
    {
      items := new T[0, 0];
      rowCount, colCount := 0, 0;
    }

    /** `DynArray(rowCount, colCount)`: exactly those counts, contents unspecified. */
    constructor (rows: nat, cols: nat)
      ensures Valid() && fresh(items)
      ensures rowCount == rows && colCount == cols
    {
      items := new T[rows, cols];
      rowCount, colCount := rows, cols;
    }

    /** The copy constructor: the source's dimensions and cell values. */
    constructor Copy(da: DynArray<T>)
      requires da.Valid()
      ensures Valid() && fresh(items)
      ensures rowCount == da.rowCount && colCount == da.colCount
      ensures forall i, j | 0 <= i < rowCount && 0 <= j < colCount :: items[i, j] == da.items[i, j]
    {
      var a := new T[da.rowCount, da.colCount];
      for i := 0 to da.rowCount
        invariant forall i', j' | 0 <= i' < i && 0 <= j' < da.colCount :: a[i', j'] == da.items[i', j']
      {
        for j := 0 to da.colCount
          invariant forall i', j' | 0 <= i' < i && 0 <= j' < da.colCount :: a[i', j'] == da.items[i', j']
          invariant forall j' | 0 <= j' < j :: a[i, j'] == da.items[i, j']
        {
          a[i, j] := da.items[i, j];
        }
      }
      items := a;
      rowCount, colCount := da.rowCount, da.colCount;
    }

    /** `getItem`: the cell at (row, col). */
    function GetItem(row: nat, col: nat): T
      reads this, items
      requires Valid() && row < rowCount && col < colCount
    {
      items[row, col]
    }

    /** `setItem`: writes one cell and no other. */
    method SetItem(row: nat, col: nat, value: T)
      requires Valid() && row < rowCount && col < colCount
      modifies items
      ensures Valid()
      ensures GetItem(row, col) == value
      ensures forall i, j | 0 <= i < rowCount && 0 <= j < colCount && (i != row || j != col) ::
        GetItem(i, j) == old(GetItem(i, j))
    {
      items[row, col] := value;
    }

    /** `setDims`: a no-op for the current dimensions; otherwise the new
        counts, with the overlapping cells kept. */
    method SetDims(rows: nat, cols: nat)
      requires Valid()
      modifies this
      ensures Valid()
      ensures rowCount == rows && colCount == cols
      ensures rows == old(rowCount) && cols == old(colCount) ==> items == old(items) && unchanged(this)
      ensures forall i, j | 0 <= i < rows && i < old(rowCount) && 0 <= j < cols && j < old(colCount) ::
        items[i, j] == old(items[i, j])
      ensures items == old(items) || fresh(items)
    {
      if rows == rowCount && cols == colCount {
        return;
      }
      var src := items;
      var a := new T[rows, cols];
      var keepRows := if rows < rowCount then rows else rowCount;
      var keepCols := if cols < colCount then cols else colCount;
      for i := 0 to keepRows
        invariant forall i', j' | 0 <= i' < i && 0 <= j' < keepCols :: a[i', j'] == src[i', j']
      {
        for j := 0 to keepCols
          invariant forall i', j' | 0 <= i' < i && 0 <= j' < keepCols :: a[i', j'] == src[i', j']
          invariant forall j' | 0 <= j' < j :: a[i, j'] == src[i, j']
        {
          a[i, j] := src[i, j];
        }
      }
      items := a;
      rowCount, colCount := rows, cols;
    }

    /** `operator=`: takes the dimensions of `value`, then copies every cell. */
    method Assign(value: DynArray<T>)
      requires Valid() && value.Valid()
      modifies this, items
      ensures Valid()
      ensures rowCount == old(value.rowCount) && colCount == old(value.colCount)
      ensures forall i, j | 0 <= i < rowCount && 0 <= j < colCount :: items[i, j] == old(value.items[i, j])
    {
      ghost var src := value.items;
      var rows, cols := value.rowCount, value.colCount;
      SetDims(value.rowCount, value.colCount);
      assert value.items == src && value.rowCount == rows && value.colCount == cols;
      for i := 0 to rows
        invariant Valid() && rowCount == rows && colCount == cols
        invariant items == old(items) || fresh(items)
        invariant value.items == src && value.rowCount == rows && value.colCount == cols
        invariant forall i', j' | 0 <= i' < rows && 0 <= j' < cols :: src[i', j'] == old(src[i', j'])
        invariant forall i', j' | 0 <= i' < i && 0 <= j' < cols :: items[i', j'] == old(src[i', j'])
      {
        for j := 0 to cols
          invariant Valid() && rowCount == rows && colCount == cols
          invariant items == old(items) || fresh(items)
          invariant value.items == src && value.rowCount == rows && value.colCount == cols
          invariant forall i', j' | 0 <= i' < rows && 0 <= j' < cols :: src[i', j'] == old(src[i', j'])
          invariant forall i', j' | 0 <= i' < i && 0 <= j' < cols :: items[i', j'] == old(src[i', j'])
          invariant forall j' | 0 <= j' < j :: items[i, j'] == old(src[i, j'])
        {
          items[i, j] := value.items[i, j];
        }
      }
    }
  }
}
