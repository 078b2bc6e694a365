/** The reel panel: a grid of letters whose last row is the reel the player forms
    words from. Submitting a word scrolls the columns it used down by one, circularly,
    so each of those columns shows a new letter in the last row. */
module ReelPanels {
  import opened Common
  import opened Matrices
  import opened CharExtensions

  /** The default `char`, which fills a freshly created panel. */
  const Blank: char := 0 as char

  /** Every row of `g` has `width` cells. */
  ghost predicate Rectangular(g: seq<seq<char>>, width: nat)
  {
    forall r | 0 <= r < |g| :: |g[r]| == width
  }

  /** The row whose cell moves into row `r` when a column scrolls: the row above it,
      and the last row for row 0. */
  function Above(r: nat, rows: nat): (a: nat)
    requires r < rows
    ensures a < rows
    ensures r > 0 ==> a == r - 1
    ensures r == 0 ==> a == rows - 1
  {
    if r == 0 then rows - 1 else r - 1
  }

  /** Column `c` of `g` rotated down by one, circularly: row `r` takes the old cell
      of row `r - 1`, and row 0 the old cell of the last row. */
  function ScrollColumn(g: seq<seq<char>>, width: nat, c: nat): (h: seq<seq<char>>)
    requires |g| > 0 && Rectangular(g, width) && c < width
    ensures |h| == |g| && Rectangular(h, width)
    ensures forall r, k | 0 <= r < |g| && 0 <= k < width ::
      h[r][k] == if k == c then g[Above(r, |g|)][k] else g[r][k]
  {
    seq(|g|, r requires 0 <= r < |g| => g[r][c := g[Above(r, |g|)][c]])
  }

  /** The columns `cols` scrolled one after the other. */
  function ScrollColumns(g: seq<seq<char>>, width: nat, cols: seq<int>): (h: seq<seq<char>>)
    requires |g| > 0 && Rectangular(g, width)
    requires forall k | 0 <= k < |cols| :: 0 <= cols[k] < width
    ensures |h| == |g| && Rectangular(h, width)
  {
    if cols == [] then g
    else ScrollColumn(ScrollColumns(g, width, cols[..|cols| - 1]), width, cols[|cols| - 1])
  }

  /** Scrolling distinct columns rotates each of them once and leaves every other
      column as it was. */
  lemma {:induction false} ScrollColumnsCells(g: seq<seq<char>>, width: nat, cols: seq<int>)
    requires |g| > 0 && Rectangular(g, width)
    requires forall k | 0 <= k < |cols| :: 0 <= cols[k] < width
    requires forall i, j | 0 <= i < j < |cols| :: cols[i] != cols[j]
    ensures forall r, c | 0 <= r < |g| && 0 <= c < width ::
      ScrollColumns(g, width, cols)[r][c] == if c in cols then g[Above(r, |g|)][c] else g[r][c]
  {
    if cols != [] {
      var prev := cols[..|cols| - 1];
      var last := cols[|cols| - 1];
      ScrollColumnsCells(g, width, prev);
      assert cols == prev + [last];
      forall c | 0 <= c < width
        ensures c in cols <==> c in prev || c == last
      {
      }
      assert last !in prev;
    }
  }

  /** Column `c` of `g`, top to bottom. */
  function Column(g: seq<seq<char>>, width: nat, c: nat): (col: seq<char>)
    requires Rectangular(g, width) && c < width
    ensures |col| == |g| && forall r | 0 <= r < |g| :: col[r] == g[r][c]
  {
    seq(|g|, r requires 0 <= r < |g| => g[r][c])
  }

  /** After the scroll a chosen column is its old contents rotated down by one, and
      any other column is unchanged. */
  lemma ScrolledColumn(g: seq<seq<char>>, width: nat, cols: seq<int>, c: nat)
    requires |g| > 0 && Rectangular(g, width) && c < width
    requires forall k | 0 <= k < |cols| :: 0 <= cols[k] < width
    requires forall i, j | 0 <= i < j < |cols| :: cols[i] != cols[j]
    ensures Column(ScrollColumns(g, width, cols), width, c) ==
      var before := Column(g, width, c);
      if c in cols then [before[|g| - 1]] + before[..|g| - 1] else before
  {
    ScrollColumnsCells(g, width, cols);
  }

  /** Moving the last element to the front keeps the multiset. */
  lemma RotateMultiset(s: seq<char>)
    requires |s| > 0
    ensures multiset([s[|s| - 1]] + s[..|s| - 1]) == multiset(s)
  {
    assert s == s[..|s| - 1] + [s[|s| - 1]];
  }

  /** A scroll only moves letters within a column: every column keeps its multiset of
      letters. */
  lemma ScrollKeepsColumnLetters(g: seq<seq<char>>, width: nat, cols: seq<int>, c: nat)
    requires |g| > 0 && Rectangular(g, width) && c < width
    requires forall k | 0 <= k < |cols| :: 0 <= cols[k] < width
    requires forall i, j | 0 <= i < j < |cols| :: cols[i] != cols[j]
    ensures multiset(Column(ScrollColumns(g, width, cols), width, c)) == multiset(Column(g, width, c))
  {
    ScrolledColumn(g, width, cols, c);
    RotateMultiset(Column(g, width, c));
  }

  /** On a panel of one row a scroll changes nothing. */
  lemma {:induction false} ScrollOneRow(g: seq<seq<char>>, width: nat, cols: seq<int>)
    requires |g| == 1 && Rectangular(g, width)
    requires forall k | 0 <= k < |cols| :: 0 <= cols[k] < width
    ensures ScrollColumns(g, width, cols) == g
  {
    if cols != [] {
      ScrollOneRow(g, width, cols[..|cols| - 1]);
      var c := cols[|cols| - 1];
      assert g[0][c := g[Above(0, 1)][c]] == g[0];
      assert ScrollColumn(g, width, c) == g;
    }
  }

  /** The prefix of a word uses no more of each letter than the word does. */
  lemma PrefixMultiset(word: string, n: nat)
    requires n <= |word|
    ensures multiset(word[..n]) <= multiset(word)
  {
    assert word == word[..n] + word[n..];
  }

  /** One more letter of the word is taken out of the remaining reel letters: when it
      is missing the word does not fit the row, otherwise the fit so far extends to
      one more letter. */
  lemma ConsumeStep(row: seq<char>, word: string, n: nat, before: seq<char>)
    requires n < |word|
    requires multiset(word[..n]) <= multiset(row)
    requires multiset(before) == multiset(row) - multiset(word[..n])
    ensures LastIndexOf(before, word[n]) == -1 ==> !(multiset(word) <= multiset(row))
    ensures LastIndexOf(before, word[n]) >= 0 ==>
      multiset(word[..n + 1]) <= multiset(row) &&
      multiset(RemoveAt(before, LastIndexOf(before, word[n]))) == multiset(row) - multiset(word[..n + 1])
  {
    var letter := word[n];
    assert word[..n + 1] == word[..n] + [letter];
    var index := LastIndexOf(before, letter);
    if index == -1 {
      assert multiset(before)[letter] == 0;
      PrefixMultiset(word, n + 1);
    } else {
      RemoveAtMultiset(before, index);
    }
  }

  /** The letter loop of `CheckWord`: each letter of the word in turn is removed from
      the working copy of the reel (its last occurrence), failing as soon as one is
      missing. It succeeds exactly when the copy holds the word's letters as a
      multiset. */
  method ConsumeLetters(letters: array<char>, word: string) returns (ok: bool)
    modifies letters
    ensures ok <==> multiset(word) <= multiset(old(letters[..]))
  {
    ghost var row := letters[..];
    var reelLetters := letters;
    for n := 0 to |word|
      invariant reelLetters == letters || fresh(reelLetters)
      invariant multiset(word[..n]) <= multiset(row)
      invariant multiset(reelLetters[..]) == multiset(row) - multiset(word[..n])
    {
      ConsumeStep(row, word, n, reelLetters[..]);
      var index;
      index, reelLetters := RemoveLastFoundItem(reelLetters, word[n]);
      if index == -1 {
        return false;
      }
    }
    assert word[..|word|] == word;
    return true;
  }

  class ReelPanel {
    const matrix: Matrix<char>

    /** The grid has at least one row and one column. */
    ghost predicate Valid()
    {
      matrix.Valid()
    }

    function RowCount(): int
    {
      matrix.data.Length0
    }

    function ColumnCount(): int
    {
      matrix.data.Length1
    }

    /** Row `r` of the grid, left to right. */
    ghost function Row(r: int): (s: seq<char>)
      requires 0 <= r < RowCount()
      reads matrix.data
      ensures |s| == ColumnCount()
    {
      seq(ColumnCount(), c requires 0 <= c < ColumnCount() reads matrix.data => matrix.data[r, c])
    }

    /** The grid as its rows, top to bottom. */
    ghost function Grid(): (g: seq<seq<char>>)
      reads matrix.data
      ensures |g| == RowCount() && Rectangular(g, ColumnCount())
    {
      seq(RowCount(), r requires 0 <= r < RowCount() reads matrix.data => Row(r))
    }

    /** The reel the player plays from: the last row. */
    ghost function CurrentRow(): seq<char>
      requires Valid()
      reads matrix.data
    {
      Row(RowCount() - 1)
    }

    /** `CreateEmpty` with positive dimensions: every cell holds the blank character. */
    constructor (rows: int, columns: int)
      requires rows > 0 && columns > 0
      ensures Valid() && fresh(matrix.data) && RowCount() == rows && ColumnCount() == columns
      ensures forall r, c | 0 <= r < rows && 0 <= c < columns :: Grid()[r][c] == Blank
    {
      matrix := new Matrix(rows, columns, Blank);
    }

    /** `AddReel`: a null array, or one whose length is not the number of columns, is
        ignored; otherwise row `row` is overwritten with the lower-cased characters and
        no other row changes. */
    method AddReel(row: int, chars: array?<char>)
      requires chars != null && chars.Length == ColumnCount() ==> 0 <= row < RowCount()
      modifies matrix.data
      ensures chars == null || chars.Length != ColumnCount() ==> Grid() == old(Grid())
      ensures chars != null && chars.Length == ColumnCount() ==>
        Grid() == old(Grid())[row := LowerStr(chars[..])]
    {
      if chars == null || chars.Length != matrix.GetLength(1) {
        return;
      }
      ghost var start := Grid();
      for i := 0 to chars.Length
        invariant forall r, c | 0 <= r < RowCount() && 0 <= c < ColumnCount() ::
          matrix.data[r, c] == if r == row && c < i then Lower(chars[c]) else start[r][c]
      {
        matrix.Set(row, i, Lower(chars[i]));
      }
      ghost var updated := start[row := LowerStr(chars[..])];
      forall r | 0 <= r < RowCount()
        ensures Grid()[r] == updated[r]
      {
      }
    }

    /** `Shuffle`: the grid's cells are shuffled in row-major order with the given
        draws (see `Matrix.Shuffle`). */
    method Shuffle(draws: seq<int>)
      requires Valid()
      requires |draws| >= |matrix.Cells()| - 1
      requires forall k | 0 <= k < |matrix.Cells()| - 1 :: 0 <= draws[k] < |matrix.Cells()|
      modifies matrix.data
      ensures matrix.Cells() == Swaps(old(matrix.Cells()), draws, |matrix.Cells()| - 1)
      ensures multiset(matrix.Cells()) == multiset(old(matrix.Cells()))
    {
      matrix.Shuffle(draws);
    }

    /** `CheckWord`: a blank word cannot be played; otherwise the word can be formed
        exactly when the last row holds each of its characters at least as often as
        the word does (compared exactly, so case matters). The grid is not changed:
        the letters are consumed from a copy of the row. */
    method CheckWord(word: string) returns (ok: bool)
      requires Valid()
      ensures ok <==> !IsBlank(word) && multiset(word) <= multiset(CurrentRow())
    {
      if forall i | 0 <= i < |word| :: IsWhiteSpace(word[i]) {
        return false;
      }
      var reelLetters := GetCurrentReel();
      ok := ConsumeLetters(reelLetters, word);
    }

    /** `GetReelByRow`: a fresh copy of row `row`. */
    method GetReelByRow(row: int) returns (letters: array<char>)
      requires 0 <= row < RowCount()
      ensures fresh(letters) && letters[..] == Row(row)
    {
      letters := new char[matrix.GetLength(1)];
      for i := 0 to matrix.GetLength(1)
        invariant forall c | 0 <= c < i :: letters[c] == matrix.data[row, c]
      {
        letters[i] := matrix.Get(row, i);
      }
    }

    /** `GetCurrentReel`: a fresh copy of the last row. */
    method GetCurrentReel() returns (letters: array<char>)
      requires Valid()
      ensures fresh(letters) && letters[..] == CurrentRow()
    {
      letters := GetReelByRow(matrix.GetLength(0) - 1);
    }

    /** Rotates column `c` down by one, circularly (the body of the scroll loop). */
    method ScrollColumnOf(c: int)
      requires Valid() && 0 <= c < ColumnCount()
      modifies matrix.data
      ensures Grid() == ScrollColumn(old(Grid()), ColumnCount(), c)
    {
      ghost var start := Grid();
      var rows := matrix.GetLength(0);
      var lastElement := matrix.Get(rows - 1, c);
      var row := rows - 1;
      while row > 0
        invariant 0 <= row < rows
        invariant forall r, k | 0 <= r < rows && 0 <= k < ColumnCount() ::
          matrix.data[r, k] == if k == c && row < r then start[r - 1][k] else start[r][k]
      {
        matrix.Set(row, c, matrix.Get(row - 1, c));
        row := row - 1;
      }
      matrix.Set(0, c, lastElement);
      ghost var scrolled := ScrollColumn(start, ColumnCount(), c);
      forall r | 0 <= r < rows
        ensures Grid()[r] == scrolled[r]
      {
      }
    }

    /** `ScrollLetters`: the columns chosen for the word in the current reel (see
        `LastIndexes`) are each rotated down by one. */
    method ScrollLetters(word: string)
      requires Valid()
      modifies matrix.data
      ensures Grid() == ScrollColumns(old(Grid()), ColumnCount(), LastIndexes(old(CurrentRow()), word))
    {
      var currentReel := GetCurrentReel();
      var colIdxToScroll := GetLastCharIndexesOfWord(currentReel, word);
      ghost var start := Grid();
      for k := 0 to |colIdxToScroll|
        invariant Grid() == ScrollColumns(start, ColumnCount(), colIdxToScroll[..k])
      {
        assert colIdxToScroll[..k + 1][..k] == colIdxToScroll[..k];
        ScrollColumnOf(colIdxToScroll[k]);
      }
      assert colIdxToScroll[..|colIdxToScroll|] == colIdxToScroll;
    }
  }

  /** `CreateEmpty`: a panel of blank cells, or the grid's exception when a dimension
      is not positive. */
  method CreateEmpty(rows: int, columns: int) returns (r: Reply<ReelPanel>)
    ensures r.Threw? <==> rows <= 0 || columns <= 0
    ensures r.Threw? ==> r.error == BadDimensions
    ensures r.Ok? ==> fresh(r.value.matrix.data) && r.value.Valid()
    ensures r.Ok? ==> r.value.RowCount() == rows && r.value.ColumnCount() == columns
    ensures r.Ok? ==> forall i, j | 0 <= i < rows && 0 <= j < columns :: r.value.Grid()[i][j] == Blank
  {
    if rows <= 0 || columns <= 0 {
      return Threw(BadDimensions);
    }
    var panel := new ReelPanel(rows, columns);
    return Ok(panel);
  }

  /** In reel "yayw" the word "yaw" takes columns 2, 1 and 3. */
  lemma YawColumns()
    ensures LastIndexes("yayw", "yaw") == [2, 1, 3]
  {
    assert LastFreeMatch("yayw", [], 'y', 3) == 2;
    assert LastFreeMatch("yayw", [], 'y', 4) == 2;
    assert LastFreeMatch("yayw", [2], 'a', 2) == 1;
    assert LastFreeMatch("yayw", [2], 'a', 3) == 1;
    assert LastFreeMatch("yayw", [2], 'a', 4) == 1;
    assert LastFreeMatch("yayw", [2, 1], 'w', 4) == 3;
    assert "yaw"[..2] == "ya" && "ya"[..1] == "y" && "y"[..0] == "";
    assert LastIndexes("yayw", "y") == [2];
    assert LastIndexes("yayw", "ya") == [2, 1];
  }

  /** In reel "ewre" the word "wee" takes columns 1, 3 and 0. */
  lemma WeeColumns()
    ensures LastIndexes("ewre", "wee") == [1, 3, 0]
  {
    assert LastFreeMatch("ewre", [], 'w', 2) == 1;
    assert LastFreeMatch("ewre", [], 'w', 3) == 1;
    assert LastFreeMatch("ewre", [], 'w', 4) == 1;
    assert LastFreeMatch("ewre", [1], 'e', 4) == 3;
    assert LastFreeMatch("ewre", [1, 3], 'e', 1) == 0;
    assert LastFreeMatch("ewre", [1, 3], 'e', 2) == 0;
    assert LastFreeMatch("ewre", [1, 3], 'e', 3) == 0;
    assert LastFreeMatch("ewre", [1, 3], 'e', 4) == 0;
    assert "wee"[..2] == "we" && "we"[..1] == "w" && "w"[..0] == "";
    assert LastIndexes("ewre", "w") == [1];
    assert LastIndexes("ewre", "we") == [1, 3];
  }

  /** On a two-row panel a scroll exchanges the two rows in the chosen columns. */
  lemma {:induction false} ScrollTwoRows(g: seq<seq<char>>, width: nat, cols: seq<int>)
    requires |g| == 2 && Rectangular(g, width)
    requires forall k | 0 <= k < |cols| :: 0 <= cols[k] < width
    requires forall i, j | 0 <= i < j < |cols| :: cols[i] != cols[j]
    ensures forall c | 0 <= c < width ::
      ScrollColumns(g, width, cols)[0][c] == (if c in cols then g[1][c] else g[0][c]) &&
      ScrollColumns(g, width, cols)[1][c] == (if c in cols then g[0][c] else g[1][c])
  {
    ScrollColumnsCells(g, width, cols);
    assert Above(0, 2) == 1 && Above(1, 2) == 0;
  }

  /** Rows "umbn" and "yayw" scrolled for "yaw" become "uayw" and "ymbn". */
  lemma YawScroll()
    ensures ScrollColumns(["umbn", "yayw"], 4, [2, 1, 3]) == ["uayw", "ymbn"]
  {
    var g, cols := ["umbn", "yayw"], [2, 1, 3];
    ScrollTwoRows(g, 4, cols);
    var h := ScrollColumns(g, 4, cols);
    assert 0 !in cols && 1 in cols && 2 in cols && 3 in cols;
    assert h[0] == "uayw";
    assert h[1] == "ymbn";
  }

  /** Rows "amca" and "ewre" scrolled for "wee" become "ewce" and "amra". */
  lemma WeeScroll()
    ensures ScrollColumns(["amca", "ewre"], 4, [1, 3, 0]) == ["ewce", "amra"]
  {
    var g, cols := ["amca", "ewre"], [1, 3, 0];
    ScrollTwoRows(g, 4, cols);
    var h := ScrollColumns(g, 4, cols);
    assert 0 in cols && 1 in cols && 2 !in cols && 3 in cols;
    assert h[0] == "ewce";
    assert h[1] == "amra";
  }

  /** A two-row panel filled through `AddReel` with two lower-case rows. */
  method BuildPanel(top: string, bottom: string) returns (panel: ReelPanel)
    requires 0 < |top| == |bottom| && IsLowerStr(top) && IsLowerStr(bottom)
    ensures fresh(panel.matrix.data) && panel.Valid()
    ensures panel.Grid() == [top, bottom] && panel.ColumnCount() == |top|
  {
    panel := new ReelPanel(2, |top|);
    var first := new char[|top|](i requires 0 <= i < |top| => top[i]);
    var second := new char[|bottom|](i requires 0 <= i < |bottom| => bottom[i]);
    assert first[..] == top && second[..] == bottom;
    LowerStrOfLower(top);
    LowerStrOfLower(bottom);
    panel.AddReel(0, first);
    panel.AddReel(1, second);
  }

  lemma YawRowsLower()
    ensures IsLowerStr("umbn") && IsLowerStr("yayw")
  {
  }

  lemma WeeRowsLower()
    ensures IsLowerStr("amca") && IsLowerStr("ewre")
  {
  }

  /** Rows "umbn" over "yayw": playing "yaw" leaves "uayw" over "ymbn". */
  method ScrollYaw() returns (row0: seq<char>, row1: seq<char>)
    ensures row0 == "uayw" && row1 == "ymbn"
  {
    YawRowsLower();
    var panel := BuildPanel("umbn", "yayw");
    YawColumns();
    YawScroll();
    assert panel.CurrentRow() == panel.Grid()[1];
    panel.ScrollLetters("yaw");
    assert panel.Grid()[0] == panel.Row(0) && panel.Grid()[1] == panel.Row(1);
    var first := panel.GetReelByRow(0);
    var second := panel.GetReelByRow(1);
    row0, row1 := first[..], second[..];
  }

  /** Rows "amca" over "ewre": playing "wee" leaves "ewce" over "amra". */
  method ScrollWee() returns (row0: seq<char>, row1: seq<char>)
    ensures row0 == "ewce" && row1 == "amra"
  {
    WeeRowsLower();
    var panel := BuildPanel("amca", "ewre");
    WeeColumns();
    WeeScroll();
    assert panel.CurrentRow() == panel.Grid()[1];
    panel.ScrollLetters("wee");
    assert panel.Grid()[0] == panel.Row(0) && panel.Grid()[1] == panel.Row(1);
    var first := panel.GetReelByRow(0);
    var second := panel.GetReelByRow(1);
    row0, row1 := first[..], second[..];
  }
}
