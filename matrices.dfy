/** The fixed-size grid behind the reel panel: a `rows × columns` two-dimensional
    array read and written cell by cell, and shuffled in row-major order by a
    Fisher–Yates swap loop whose random draws are given as a parameter. */
module Matrices {
  import opened Common

  /** The message of the exception the constructor raises on a bad dimension. */
  const BadDimensions: string := "The number of rows and columns must be greater than zero."

  /** Exchanges positions `i` and `j` of `s`: the cell at `j` takes the value at `i`
      and the cell at `i` the value at `j`. */
  function Swap<T>(s: seq<T>, i: nat, j: nat): (r: seq<T>)
    requires i < |s| && j < |s|
    ensures |r| == |s| && r[i] == s[j] && r[j] == s[i]
    ensures forall k | 0 <= k < |s| && k != i && k != j :: r[k] == s[k]
  {
    s[i := s[j]][j := s[i]]
  }

  /** The first `n` steps of the shuffle: step `k` exchanges position `k` with the
      position drawn for it. */
  function Swaps<T>(s: seq<T>, draws: seq<int>, n: nat): (r: seq<T>)
    requires n <= |draws| && n <= |s|
    requires forall k | 0 <= k < n :: 0 <= draws[k] < |s|
    ensures |r| == |s|
  {
    if n == 0 then s else Swap(Swaps(s, draws, n - 1), n - 1, draws[n - 1])
  }

  /** A swap keeps the multiset of values. */
  lemma SwapPermutes<T>(s: seq<T>, i: nat, j: nat)
    requires i < |s| && j < |s|
    ensures multiset(Swap(s, i, j)) == multiset(s)
  {
    var t := s[i := s[j]];
    assert multiset(t) == multiset(s) - multiset{s[i]} + multiset{s[j]};
    assert multiset(t[j := s[i]]) == multiset(t) - multiset{t[j]} + multiset{s[i]};
  }

  /** One more shuffle step keeps the multiset of values. */
  lemma SwapsStep<T>(s: seq<T>, draws: seq<int>, n: nat)
    requires 0 < n <= |draws| && n <= |s|
    requires forall k | 0 <= k < n :: 0 <= draws[k] < |s|
    ensures multiset(Swaps(s, draws, n)) == multiset(Swaps(s, draws, n - 1))
  {
    SwapPermutes(Swaps(s, draws, n - 1), n - 1, draws[n - 1]);
  }

  /** Any number of shuffle steps keeps the multiset of values: the result is a
      permutation of the input. */
  lemma {:induction false} SwapsPermute<T>(s: seq<T>, draws: seq<int>, n: nat)
    requires n <= |draws| && n <= |s|
    requires forall k | 0 <= k < n :: 0 <= draws[k] < |s|
    ensures multiset(Swaps(s, draws, n)) == multiset(s)
  {
    if n > 0 {
      SwapsPermute(s, draws, n - 1);
      SwapsStep(s, draws, n);
    }
  }

  /** A positive multiple of a positive number is at least that number. */
  lemma {:induction false} MulAtLeast(d: int, cols: int)
    requires d > 0 && cols > 0
    ensures d * cols >= cols
  {
    if d > 1 {
      MulAtLeast(d - 1, cols);
      assert d * cols == (d - 1) * cols + cols;
    }
  }

  /** Division with remainder has one answer: `q` and `m` are the quotient and the
      remainder of `q * cols + m` when `0 <= m < cols`. */
  lemma DivModUnique(k: int, cols: int, q: int, m: int)
    requires cols > 0 && 0 <= m < cols && k == q * cols + m
    ensures k / cols == q && k % cols == m
  {
    var q', m' := k / cols, k % cols;
    var d := q - q';
    assert d * cols == q * cols - q' * cols;
    assert d * cols == m' - m;
    if d > 0 {
      MulAtLeast(d, cols);
    } else if d < 0 {
      MulAtLeast(-d, cols);
    }
  }

  /** Flat index `r * cols + c` names row `r` and column `c`, and lies inside a grid
      of `rows` rows. */
  lemma RowMajor(rows: nat, cols: nat, r: nat, c: nat)
    requires r < rows && c < cols
    ensures r * cols + c < rows * cols
    ensures (r * cols + c) / cols == r && (r * cols + c) % cols == c
  {
    DivModUnique(r * cols + c, cols, r, c);
    MulAtLeast(rows - r, cols);
    assert (rows - r) * cols == rows * cols - r * cols;
  }

  /** A flat index inside a grid of `rows × cols` cells names a row of the grid. */
  lemma FlatInGrid(k: int, rows: nat, cols: nat)
    requires 0 <= k < rows * cols
    ensures 0 < cols && 0 <= k / cols < rows && 0 <= k % cols < cols
  {
  }

  /** Two flat indices name the same cell only when they are equal. */
  lemma SameCell(k: int, i: int, cols: int)
    requires cols > 0
    ensures k / cols == i / cols && k % cols == i % cols <==> k == i
  {
  }

  class Matrix<T> {
    const data: array2<T>

    /** Both dimensions are positive, as the constructor demands. */
    ghost predicate Valid()
    {
      data.Length0 > 0 && data.Length1 > 0
    }

    /** The cells in row-major order. */
    ghost function Cells(): (s: seq<T>)
      reads data
      ensures |s| == data.Length0 * data.Length1
    {
      seq(data.Length0 * data.Length1, k requires 0 <= k < data.Length0 * data.Length1 reads data =>
        data[k / data.Length1, k % data.Length1])
    }

    /** A grid of `rows × columns` cells, each holding `blank` (the element type's
        default value); both dimensions must be positive. */
    constructor (rows: int, columns: int, blank: T)
      requires rows > 0 && columns > 0
      ensures Valid() && fresh(data) && data.Length0 == rows && data.Length1 == columns
      ensures forall r, c | 0 <= r < rows && 0 <= c < columns :: data[r, c] == blank
    {
      data := new T[rows, columns]((r, c) => blank);
    }

    /** The cell at (`row`, `column`): flat index `row * columns + column` of the
        row-major cells. Out-of-range indices raise in the array. */
    function Get(row: int, column: int): (v: T)
      reads data
      requires 0 <= row < data.Length0 && 0 <= column < data.Length1
      ensures row * data.Length1 + column < |Cells()| && v == Cells()[row * data.Length1 + column]
    {
      RowMajor(data.Length0, data.Length1, row, column);
      CellOf(row * data.Length1 + column);
      data[row, column]
    }

    /** Flat index `k` of the row-major cells holds the cell at row `k / columns` and
        column `k % columns`. */
    lemma CellOf(k: int)
      requires 0 <= k < data.Length0 * data.Length1
      ensures 0 <= k / data.Length1 < data.Length0 && 0 <= k % data.Length1 < data.Length1
      ensures Cells()[k] == data[k / data.Length1, k % data.Length1]
    {
      FlatInGrid(k, data.Length0, data.Length1);
    }

    /** Writes one cell and no other. */
    method Set(row: int, column: int, value: T)
      requires 0 <= row < data.Length0 && 0 <= column < data.Length1
      modifies data
      ensures data[row, column] == value
      ensures forall r, c | 0 <= r < data.Length0 && 0 <= c < data.Length1 && (r, c) != (row, column) ::
        data[r, c] == old(data[r, c])
    {
      data[row, column] := value;
    }

    /** The number of rows (dimension 0) or columns (dimension 1). */
    function GetLength(dimension: int): (n: int)
      requires dimension == 0 || dimension == 1
      ensures n > 0 <== data.Length0 > 0 && data.Length1 > 0
      ensures n == if dimension == 0 then data.Length0 else data.Length1
    {
      if dimension == 0 then data.Length0 else data.Length1
    }

    /** Exchanges the cells at flat indices `i` and `j` (the tuple assignment in the
        shuffle loop). */
    method SwapCells(i: nat, j: nat)
      requires i < data.Length0 * data.Length1 && j < data.Length0 * data.Length1
      modifies data
      ensures Cells() == Swap(old(Cells()), i, j)
    {
      var cols := data.Length1;
      FlatInGrid(i, data.Length0, cols);
      FlatInGrid(j, data.Length0, cols);
      var rowI, colI := i / cols, i % cols;
      var rowJ, colJ := j / cols, j % cols;
      ghost var before := Cells();
      data[rowJ, colJ], data[rowI, colI] := data[rowI, colI], data[rowJ, colJ];
      forall k | 0 <= k < |before|
        ensures Cells()[k] == Swap(before, i, j)[k]
      {
        SameCell(k, i, cols);
        SameCell(k, j, cols);
        FlatInGrid(k, data.Length0, cols);
        if k == i {
          assert Cells()[k] == data[rowI, colI];
        } else if k == j {
          assert Cells()[k] == data[rowJ, colJ];
        } else {
          assert Cells()[k] == data[k / cols, k % cols] == before[k];
        }
      }
    }

    /** Row-major Fisher–Yates: for each flat index `i` but the last, the cell at `i`
        is exchanged with the cell at `draws[i]`. The draws stand for the random
        generator; the source asks it for a value in [i, N), and any value in [0, N)
        is accepted here. */
    method Shuffle(draws: seq<int>)
      requires Valid()
      requires |draws| >= |Cells()| - 1 && forall k | 0 <= k < |Cells()| - 1 :: 0 <= draws[k] < |Cells()|
      modifies data
      ensures Cells() == Swaps(old(Cells()), draws, |Cells()| - 1)
      ensures multiset(Cells()) == multiset(old(Cells()))
    {
      var numCells := data.Length0 * data.Length1;
      ghost var start := Cells();
      for i := 0 to numCells - 1
        invariant Cells() == Swaps(start, draws, i)
      {
        SwapCells(i, draws[i]);
      }
      SwapsPermute(start, draws, numCells - 1);
    }
  }

  /** The constructor with its dimension check: a non-positive dimension raises the
      argument exception instead of building a grid. */
  method NewMatrix<T>(rows: int, columns: int, blank: T) returns (r: Reply<Matrix<T>>)
    ensures r.Threw? <==> rows <= 0 || columns <= 0
    ensures r.Threw? ==> r.error == BadDimensions
    ensures r.Ok? ==> fresh(r.value.data) && r.value.Valid()
    ensures r.Ok? ==> r.value.data.Length0 == rows && r.value.data.Length1 == columns
  {
    if rows <= 0 || columns <= 0 {
      return Threw(BadDimensions);
    }
    var m := new Matrix(rows, columns, blank);
    return Ok(m);
  }

  /** A grid of one cell is left as it is by the shuffle. */
  lemma OneCellShuffle<T>(s: seq<T>, draws: seq<int>)
    requires |s| == 1
    ensures Swaps(s, draws, |s| - 1) == s
  {
  }

  lemma TwoByTwoSwaps()
    ensures Swaps([1, 2, 3, 4], [3, 2, 1, 0], 3) == [4, 2, 3, 1]
  {
    assert Swaps([1, 2, 3, 4], [3, 2, 1, 0], 1) == [4, 2, 3, 1];
    assert Swaps([1, 2, 3, 4], [3, 2, 1, 0], 2) == [4, 3, 2, 1];
  }

  /** With draws 3, 2, 1, the grid [[1, 2], [3, 4]] becomes [[4, 2], [3, 1]]. */
  method ShuffleTwoByTwo() returns (m: Matrix<int>)
    ensures fresh(m.data) && m.data.Length0 == 2 && m.data.Length1 == 2
    ensures m.Get(0, 0) == 4 && m.Get(0, 1) == 2 && m.Get(1, 0) == 3 && m.Get(1, 1) == 1
  {
    m := new Matrix(2, 2, 0);
    m.Set(0, 0, 1);
    m.Set(0, 1, 2);
    m.Set(1, 0, 3);
    m.Set(1, 1, 4);
    assert m.Cells() == [1, 2, 3, 4];
    m.Shuffle([3, 2, 1, 0]);
    TwoByTwoSwaps();
  }
}
