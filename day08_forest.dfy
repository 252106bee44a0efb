/** Treetop tree house of day-08/src/main.rs: a grid of tree heights, the number of
    directions from which a tree is visible (every other tree on the way to the edge
    is shorter), the scenic score (the product of the viewing distances), the count
    of visible trees and the best scenic score of the interior. */
module TreetopTreeHouse {

  type Forest = seq<seq<nat>>

  /** A position `(row, column)` of the grid. */
  datatype Cell = Cell(row: nat, col: nat)

  /** A forest as `load_data` reads it: at least one row, all rows of one width. */
  predicate IsForest(forest: Forest) {
    |forest| >= 1 && forall r :: 0 <= r < |forest| ==> |forest[r]| == |forest[0]|
  }

  function Width(forest: Forest): nat
    requires |forest| >= 1
  {
    |forest[0]|
  }

  predicate InForest(forest: Forest, cell: Cell) {
    cell.row < |forest| && cell.col < |forest[cell.row]|
  }

  predicate AllInForest(forest: Forest, cells: seq<Cell>) {
    forall k :: 0 <= k < |cells| ==> InForest(forest, cells[k])
  }

  function Height(forest: Forest, cell: Cell): nat
    requires InForest(forest, cell)
  {
    forest[cell.row][cell.col]
  }

  /** What `visible_sides` and `get_scenic_score` need of a tree not to index out of the
      grid: the tree is in it, and the range to the right, which runs to the number of
      rows, stays within the width. */
  predicate Fits(forest: Forest, tree: Cell) {
    IsForest(forest) && tree.row < |forest| && tree.col < Width(forest) &&
    (tree.col + 1 >= |forest| || |forest| <= Width(forest))
  }

  // ---------------------------------------------------------------------------
  // The lines of sight (main.rs:27-32, 63-68)
  // ---------------------------------------------------------------------------

  /** The cells the nested range loops visit, in their order: `rows x cols` in
      row-major order, each range given as its first index and its length. */
  function Column(rowStart: nat, rows: nat, col: nat): seq<Cell> {
    seq(rows, k requires 0 <= k < rows => Cell(rowStart + k, col))
  }

  function Row(row: nat, colStart: nat, cols: nat): seq<Cell> {
    seq(cols, k requires 0 <= k < cols => Cell(row, colStart + k))
  }

  /** `len` of `lo..hi`. */
  function RangeLen(lo: nat, hi: nat): nat {
    if lo < hi then hi - lo else 0
  }

  /** The four `edges` of `visible_sides`, up, down, right, left, each scanned from its
      lowest index; the down and right ones start at the tree itself. */
  function SightLines(forest: Forest, tree: Cell): (lines: seq<seq<Cell>>)
    requires Fits(forest, tree)
    ensures |lines| == 4
    ensures forall e :: 0 <= e < 4 ==> AllInForest(forest, lines[e])
  {
    var h := |forest|;
    [Column(0, tree.row, tree.col),
     Column(tree.row, RangeLen(tree.row, h), tree.col),
     Row(tree.row, tree.col, RangeLen(tree.col, h)),
     Row(tree.row, 0, tree.col)]
  }

  /** The four `edges` of `get_scenic_score`, each scanned outwards from the tree: the
      up and left ranges are reversed. */
  function ViewLines(forest: Forest, tree: Cell): (lines: seq<seq<Cell>>)
    requires Fits(forest, tree)
    ensures |lines| == 4
    ensures forall e :: 0 <= e < 4 ==> AllInForest(forest, lines[e])
  {
    var h := |forest|;
    [seq(tree.row, k requires 0 <= k < tree.row => Cell(tree.row - 1 - k, tree.col)),
     Column(tree.row, RangeLen(tree.row, h), tree.col),
     Row(tree.row, tree.col, RangeLen(tree.col, h)),
     seq(tree.col, k requires 0 <= k < tree.col => Cell(tree.row, tree.col - 1 - k))]
  }

  // ---------------------------------------------------------------------------
  // Visibility (main.rs:23-57)
  // ---------------------------------------------------------------------------

  /** Some tree other than `tree` on the line is at least as tall. */
  predicate HiddenAlong(forest: Forest, tree: Cell, cells: seq<Cell>)
    requires InForest(forest, tree) && AllInForest(forest, cells)
  {
    exists k :: 0 <= k < |cells| && cells[k] != tree && Height(forest, tree) <= Height(forest, cells[k])
  }

  /** The number of lines along which the tree is not hidden. */
  function CountVisible(forest: Forest, tree: Cell, lines: seq<seq<Cell>>): (n: nat)
    requires InForest(forest, tree) && forall e :: 0 <= e < |lines| ==> AllInForest(forest, lines[e])
    ensures n <= |lines|
  {
    if lines == [] then 0
    else
      CountVisible(forest, tree, lines[..|lines| - 1]) +
        (if HiddenAlong(forest, tree, lines[|lines| - 1]) then 0 else 1)
  }

  /** The directions the tree is visible from: at most four, and at least one exactly
      when along some line of sight every other tree is shorter. */
  function Sides(forest: Forest, tree: Cell): (n: nat)
    requires Fits(forest, tree)
    ensures n <= 4
    ensures n > 0 <==> exists e :: 0 <= e < 4 && !HiddenAlong(forest, tree, SightLines(forest, tree)[e])
  {
    CountVisibleMeans(forest, tree, SightLines(forest, tree));
    CountVisible(forest, tree, SightLines(forest, tree))
  }

  /** One edge of `visible_sides` (main.rs:35-50): look for a tree at least as tall,
      skipping the tree itself, and stop at the first. */
  method LookAlong(forest: Forest, tree: Cell, cells: seq<Cell>) returns (hidden: bool)
    requires InForest(forest, tree) && AllInForest(forest, cells)
    ensures hidden == HiddenAlong(forest, tree, cells)
  {
    var treeValue := forest[tree.row][tree.col];
    hidden := false;
    var i := 0;
    while i < |cells|
      invariant 0 <= i <= |cells|
      invariant HiddenAlong(forest, tree, cells) || !hidden
      invariant !hidden ==> forall k :: 0 <= k < i && cells[k] != tree ==> Height(forest, cells[k]) < treeValue
    {
      if cells[i] == tree {
        i := i + 1;
        continue;
      }
      var otherTree := forest[cells[i].row][cells[i].col];
      if treeValue <= otherTree {
        hidden := true;
        break;
      }
      i := i + 1;
    }
  }

  /** `visible_sides`: one count for every edge along which the tree is not hidden. */
  method VisibleSides(forest: Forest, tree: Cell) returns (sides: nat)
    requires Fits(forest, tree)
    ensures sides == Sides(forest, tree)
    ensures sides <= 4
  {
    var edges := SightLines(forest, tree);
    sides := 0;
    for e := 0 to |edges|
      invariant sides == CountVisible(forest, tree, edges[..e])
    {
      var hidden := LookAlong(forest, tree, edges[e]);
      assert edges[..e + 1][..e] == edges[..e];
      if !hidden {
        sides := sides + 1;
      }
    }
    assert edges[..|edges|] == edges;
  }

  /** A tree is counted visible from a direction exactly when every other tree on that
      line is shorter; it is visible at all exactly when some direction is clear. */
  lemma {:induction false} CountVisibleMeans(forest: Forest, tree: Cell, lines: seq<seq<Cell>>)
    requires InForest(forest, tree) && forall e :: 0 <= e < |lines| ==> AllInForest(forest, lines[e])
    ensures CountVisible(forest, tree, lines) > 0 <==> exists e :: 0 <= e < |lines| && !HiddenAlong(forest, tree, lines[e])
    ensures CountVisible(forest, tree, lines) == |lines| <==> forall e :: 0 <= e < |lines| ==> !HiddenAlong(forest, tree, lines[e])
  {
    if lines != [] {
      var init := lines[..|lines| - 1];
      CountVisibleMeans(forest, tree, init);
      assert forall e :: 0 <= e < |init| ==> init[e] == lines[e];
    }
  }

  /** Every tree on the border is visible: its line to the top, the bottom or the left
      holds no other tree, and on a square grid neither does its line to the right. */
  lemma BorderVisible(forest: Forest, tree: Cell)
    requires Fits(forest, tree)
    requires tree.row == 0 || tree.row == |forest| - 1 || tree.col == 0 || tree.col + 1 >= |forest|
    ensures Sides(forest, tree) > 0
  {
    var lines := SightLines(forest, tree);
    CountVisibleMeans(forest, tree, lines);
    if tree.row == 0 {
      assert !HiddenAlong(forest, tree, lines[0]);
    } else if tree.row == |forest| - 1 {
      assert lines[1] == [tree];
      assert !HiddenAlong(forest, tree, lines[1]);
    } else if tree.col == 0 {
      assert !HiddenAlong(forest, tree, lines[3]);
    } else {
      assert lines[2] == [] || lines[2] == [tree];
      assert !HiddenAlong(forest, tree, lines[2]);
    }
  }

  // ---------------------------------------------------------------------------
  // Scenic score (main.rs:59-97)
  // ---------------------------------------------------------------------------

  /** The number of trees on the line other than `tree`. */
  function Others(tree: Cell, cells: seq<Cell>): nat {
    if cells == [] then 0 else (if cells[0] == tree then 0 else 1) + Others(tree, cells[1..])
  }

  /** The viewing distance along a line: the trees up to and including the first one
      at least as tall as `tree`, the tree itself not counted. So the view ends at
      every tree at least as tall: it counts no tree beyond it. */
  function View(forest: Forest, tree: Cell, cells: seq<Cell>): (d: nat)
    requires InForest(forest, tree) && AllInForest(forest, cells)
    ensures forall k :: 0 <= k < |cells| && cells[k] != tree && Height(forest, tree) <= Height(forest, cells[k]) ==>
      d <= Others(tree, cells[..k + 1])
  {
    if cells == [] then 0
    else
      assert forall k :: 1 <= k < |cells| ==> cells[..k + 1][1..] == cells[1..][..k] && cells[1..][k - 1] == cells[k];
      if cells[0] == tree then View(forest, tree, cells[1..])
      else if Height(forest, tree) <= Height(forest, cells[0]) then 1
      else 1 + View(forest, tree, cells[1..])
  }

  /** A viewing distance is at most the number of trees in that direction, reaches all
      of them when they are all shorter, and is at least one when there is any. */
  lemma {:induction false} ViewBounds(forest: Forest, tree: Cell, cells: seq<Cell>)
    requires InForest(forest, tree) && AllInForest(forest, cells)
    ensures View(forest, tree, cells) <= Others(tree, cells)
    ensures Others(tree, cells) > 0 ==> View(forest, tree, cells) >= 1
    ensures !HiddenAlong(forest, tree, cells) ==> View(forest, tree, cells) == Others(tree, cells)
  {
    if cells != [] {
      ViewBounds(forest, tree, cells[1..]);
      if !HiddenAlong(forest, tree, cells) {
        assert !HiddenAlong(forest, tree, cells[1..]) by {
          forall k | 0 <= k < |cells[1..]| && cells[1..][k] != tree
            ensures Height(forest, tree) > Height(forest, cells[1..][k])
          {
            assert cells[1..][k] == cells[k + 1];
          }
        }
      }
    }
  }

  /** At the first tree at least as tall, the view is exactly the trees up to and
      including it: when every other tree before position `k` is shorter and the
      tree at `k` is at least as tall, the distance counts the trees of `cells[..k + 1]`. */
  lemma {:induction false} ViewAtBlocker(forest: Forest, tree: Cell, cells: seq<Cell>, k: nat)
    requires InForest(forest, tree) && AllInForest(forest, cells)
    requires k < |cells| && cells[k] != tree && Height(forest, tree) <= Height(forest, cells[k])
    requires forall j :: 0 <= j < k && cells[j] != tree ==> Height(forest, cells[j]) < Height(forest, tree)
    ensures View(forest, tree, cells) == Others(tree, cells[..k + 1])
  {
    if k > 0 {
      assert cells[..k + 1][1..] == cells[1..][..k];
      ViewAtBlocker(forest, tree, cells[1..], k - 1);
    }
  }

  function Product(xs: seq<nat>): nat {
    if xs == [] then 1 else Product(xs[..|xs| - 1]) * xs[|xs| - 1]
  }

  /** The viewing distances up, down, right and left. */
  function Distances(forest: Forest, tree: Cell): (d: seq<nat>)
    requires Fits(forest, tree)
    ensures |d| == 4
  {
    var lines := ViewLines(forest, tree);
    seq(4, e requires 0 <= e < 4 => View(forest, tree, lines[e]))
  }

  /** A product of four factors, multiplied out. */
  lemma ProductOfFour(d: seq<nat>)
    requires |d| == 4
    ensures Product(d) == d[0] * d[1] * d[2] * d[3]
  {
    assert d[..1][..0] == [] && d[..2][..1] == d[..1] && d[..3][..2] == d[..2] && d[..4][..3] == d[..3];
    assert Product(d[..1]) == d[0];
    assert Product(d[..2]) == d[0] * d[1];
    assert Product(d[..3]) == d[0] * d[1] * d[2];
    assert d[..4] == d;
  }

  lemma ZeroFactor(a: nat, b: nat, c: nat, d: nat)
    ensures a * b * c * d == 0 <==> a == 0 || b == 0 || c == 0 || d == 0
  {
    if a != 0 && b != 0 && c != 0 && d != 0 {
      assert a * b >= 1;
      assert a * b * c >= 1;
    }
  }

  /** The scenic score: zero exactly when the view is blocked at once in some
      direction. */
  function Scenic(forest: Forest, tree: Cell): (score: nat)
    requires Fits(forest, tree)
    ensures score == 0 <==> 0 in Distances(forest, tree)
  {
    var d := Distances(forest, tree);
    ProductOfFour(d);
    ZeroFactor(d[0], d[1], d[2], d[3]);
    assert 0 in d <==> d[0] == 0 || d[1] == 0 || d[2] == 0 || d[3] == 0;
    Product(d)
  }

  /** The scenic score is the product of the four viewing distances. */
  lemma ScenicIsProduct(forest: Forest, tree: Cell)
    requires Fits(forest, tree)
    ensures var d := Distances(forest, tree); Scenic(forest, tree) == d[0] * d[1] * d[2] * d[3]
  {
    ProductOfFour(Distances(forest, tree));
  }

  /** A tree on the border sees nothing in one direction, so its score is 0. */
  lemma ScenicBorderZero(forest: Forest, tree: Cell)
    requires Fits(forest, tree)
    requires tree.row == 0 || tree.row == |forest| - 1 || tree.col == 0 || tree.col + 1 >= |forest|
    ensures Scenic(forest, tree) == 0
  {
    var lines := ViewLines(forest, tree);
    var d := Distances(forest, tree);
    ScenicIsProduct(forest, tree);
    var e := if tree.row == 0 then 0 else if tree.row == |forest| - 1 then 1 else if tree.col == 0 then 3 else 2;
    ViewBounds(forest, tree, lines[e]);
    if e == 1 {
      assert lines[1] == [tree];
      assert Others(tree, lines[1][1..]) == 0;
    } else if e == 2 {
      assert lines[2] == [] || lines[2] == [tree];
      if lines[2] == [tree] {
        assert Others(tree, lines[2][1..]) == 0;
      }
    }
    assert d[e] == 0;
  }

  /** One edge of `get_scenic_score` (main.rs:71-89): count the trees outwards up to
      the first one at least as tall, skipping the tree itself. */
  method ViewAlong(forest: Forest, tree: Cell, cells: seq<Cell>) returns (visibleSides: nat)
    requires InForest(forest, tree) && AllInForest(forest, cells)
    ensures visibleSides == View(forest, tree, cells)
  {
    var treeValue := forest[tree.row][tree.col];
    visibleSides := 0;
    var viewBlocked := false;
    var i := 0;
    while i < |cells|
      invariant 0 <= i <= |cells|
      invariant !viewBlocked ==> visibleSides + View(forest, tree, cells[i..]) == View(forest, tree, cells)
      invariant visibleSides == View(forest, tree, cells) || !viewBlocked
    {
      assert cells[i..][1..] == cells[i + 1..];
      if cells[i] == tree {
        i := i + 1;
        continue;
      }
      visibleSides := visibleSides + 1;
      var otherTree := forest[cells[i].row][cells[i].col];
      if treeValue <= otherTree {
        viewBlocked := true;
        break;
      }
      i := i + 1;
    }
  }

  /** The product loop of `get_scenic_score` (main.rs:92-95). */
  method MultiplyDistances(viewDistance: seq<nat>) returns (scenicScore: nat)
    ensures scenicScore == Product(viewDistance)
  {
    scenicScore := 1;
    for k := 0 to |viewDistance|
      invariant scenicScore == Product(viewDistance[..k])
    {
      assert viewDistance[..k + 1][..k] == viewDistance[..k];
      scenicScore := scenicScore * viewDistance[k];
    }
    assert viewDistance[..|viewDistance|] == viewDistance;
  }

  /** `get_scenic_score`: the viewing distance along every edge, multiplied. */
  method ScenicScore(forest: Forest, tree: Cell) returns (scenicScore: nat)
    requires Fits(forest, tree)
    ensures scenicScore == Scenic(forest, tree)
  {
    var edges := ViewLines(forest, tree);
    var viewDistance: seq<nat> := [];
    for e := 0 to |edges|
      invariant |viewDistance| == e
      invariant forall k :: 0 <= k < e ==> viewDistance[k] == View(forest, tree, edges[k])
    {
      var visibleSides := ViewAlong(forest, tree, edges[e]);
      viewDistance := viewDistance + [visibleSides];
    }
    assert viewDistance == Distances(forest, tree);
    scenicScore := MultiplyDistances(viewDistance);
  }

  // ---------------------------------------------------------------------------
  // The interior (main.rs:99-121)
  // ---------------------------------------------------------------------------

  /** Every interior tree can be looked at: the right range stays within the width. */
  predicate ScanFits(forest: Forest)
    requires IsForest(forest)
  {
    |forest| >= 3 && Width(forest) >= 3 ==> |forest| <= Width(forest)
  }

  lemma InteriorFits(forest: Forest, r: nat, c: nat)
    requires IsForest(forest) && ScanFits(forest)
    requires 1 <= r < |forest| - 1 && 1 <= c < Width(forest) - 1
    ensures Fits(forest, Cell(r, c))
  {
  }

  /** The interior trees of row `r` among columns `1..n` that are visible. */
  function RowVisible(forest: Forest, r: nat, n: nat): (count: nat)
    requires IsForest(forest) && ScanFits(forest) && 1 <= r < |forest| - 1 && n < Width(forest)
    ensures count <= if n > 1 then n - 1 else 0
  {
    if n <= 1 then 0
    else
      InteriorFits(forest, r, n - 1);
      RowVisible(forest, r, n - 1) + (if Sides(forest, Cell(r, n - 1)) > 0 then 1 else 0)
  }

  /** The visible interior trees of rows `1..m`. */
  function InteriorVisible(forest: Forest, m: nat): (count: nat)
    requires IsForest(forest) && ScanFits(forest) && Width(forest) >= 1 && (m <= 1 || m < |forest|)
  {
    if m <= 1 then 0
    else InteriorVisible(forest, m - 1) + RowVisible(forest, m - 1, Width(forest) - 1)
  }

  /** `look_at_trees`: the border trees, all visible, counted as `2 * rows + 2 * (width -
      2)`, plus every visible interior tree; `forest[0]` and `len() - 2` panic on a grid
      without rows or narrower than 2. */
  method LookAtTrees(forest: Forest) returns (treesVisible: nat)
    requires IsForest(forest) && Width(forest) >= 2 && ScanFits(forest)
    ensures treesVisible == 2 * |forest| + 2 * (Width(forest) - 2) + InteriorVisible(forest, |forest| - 1)
  {
    treesVisible := |forest| * 2 + (|forest[0]| - 2) * 2;
    ghost var border := treesVisible;
    var rowIdx := 1;
    while rowIdx < |forest| - 1
      invariant 1 <= rowIdx && (rowIdx == 1 || rowIdx <= |forest| - 1)
      invariant treesVisible == border + InteriorVisible(forest, rowIdx)
    {
      var colIdx := 1;
      while colIdx < |forest[rowIdx]| - 1
        invariant 1 <= colIdx <= Width(forest) - 1
        invariant treesVisible == border + InteriorVisible(forest, rowIdx) + RowVisible(forest, rowIdx, colIdx)
      {
        InteriorFits(forest, rowIdx, colIdx);
        var sides := VisibleSides(forest, Cell(rowIdx, colIdx));
        treesVisible := treesVisible + (if sides > 0 then 1 else 0);
        colIdx := colIdx + 1;
      }
      rowIdx := rowIdx + 1;
    }
  }

  /** The number of cells of a `rows x cols` grid, counted row by row. */
  function Area(rows: nat, cols: nat): nat {
    if rows == 0 then 0 else Area(rows - 1, cols) + cols
  }

  lemma {:induction false} AreaIsProduct(rows: nat, cols: nat)
    ensures Area(rows, cols) == rows * cols
  {
    if rows > 0 {
      AreaIsProduct(rows - 1, cols);
      assert rows * cols == (rows - 1) * cols + cols;
    }
  }

  /** On the first `m + 1` rows, the border count plus the visible interior trees of
      rows `1..m` never exceeds the number of trees; `m == |forest| - 1` is the answer
      of `look_at_trees`. */
  lemma {:induction false} LookAtTreesBound(forest: Forest, m: nat)
    requires IsForest(forest) && Width(forest) >= 2 && ScanFits(forest) && 1 <= m < |forest|
    ensures 2 * (m + 1) + 2 * (Width(forest) - 2) + InteriorVisible(forest, m) <= Area(m + 1, Width(forest))
  {
    if m > 1 {
      LookAtTreesBound(forest, m - 1);
    }
  }

  /** A tree off the border, which `look_at_trees` and `assess_the_trees` visit. */
  predicate IsInterior(forest: Forest, cell: Cell)
    requires IsForest(forest)
  {
    1 <= cell.row < |forest| - 1 && 1 <= cell.col < Width(forest) - 1
  }

  function ScenicAt(forest: Forest, cell: Cell): nat
    requires IsForest(forest) && ScanFits(forest) && IsInterior(forest, cell)
  {
    InteriorFits(forest, cell.row, cell.col);
    Scenic(forest, cell)
  }

  /** The interior tree comes before row `r`, column `c` in the scan. */
  predicate Before(forest: Forest, cell: Cell, r: nat, c: nat)
    requires IsForest(forest)
  {
    IsInterior(forest, cell) && (cell.row < r || (cell.row == r && cell.col < c))
  }

  /** `assess_the_trees`: the best scenic score among the interior trees, 0 when there
      are none; `len() - 1` panics on a grid without rows. */
  method AssessTheTrees(forest: Forest) returns (scenicScore: nat)
    requires IsForest(forest) && (|forest| >= 3 ==> Width(forest) >= 1) && ScanFits(forest)
    ensures forall cell :: IsInterior(forest, cell) ==> ScenicAt(forest, cell) <= scenicScore
    ensures scenicScore == 0 || exists cell :: IsInterior(forest, cell) && ScenicAt(forest, cell) == scenicScore
  {
    scenicScore := 0;
    ghost var best := Cell(0, 0);
    var rowIdx := 1;
    while rowIdx < |forest| - 1
      invariant 1 <= rowIdx && (rowIdx == 1 || rowIdx <= |forest| - 1)
      invariant forall cell :: Before(forest, cell, rowIdx, 0) ==> ScenicAt(forest, cell) <= scenicScore
      invariant scenicScore > 0 ==> IsInterior(forest, best) && ScenicAt(forest, best) == scenicScore
    {
      var colIdx := 1;
      while colIdx < |forest[rowIdx]| - 1
        invariant 1 <= colIdx && (colIdx == 1 || colIdx <= Width(forest) - 1)
        invariant forall cell :: Before(forest, cell, rowIdx, colIdx) ==> ScenicAt(forest, cell) <= scenicScore
        invariant scenicScore > 0 ==> IsInterior(forest, best) && ScenicAt(forest, best) == scenicScore
      {
        InteriorFits(forest, rowIdx, colIdx);
        var newScenicScore := ScenicScore(forest, Cell(rowIdx, colIdx));
        if newScenicScore > scenicScore {
          scenicScore := newScenicScore;
          best := Cell(rowIdx, colIdx);
        }
        colIdx := colIdx + 1;
      }
      rowIdx := rowIdx + 1;
    }
    assert forall cell :: IsInterior(forest, cell) ==> Before(forest, cell, rowIdx, 0);
  }
}
