/** The layout engine (src/utils/d3Layout.ts): components are grouped by (column, level),
    stacked column by column with a running y cursor, elements are placed inside their
    component, and the canvas is sized to the positions. All geometry is integer. */
module Layout {
  import opened Wrappers
  import opened Types
  import opened Encode

  const ColWidth := 320
  const ColumnGap := 160
  const RowHeight := 240
  const ElementW := 240
  const ElementH := 40
  const ElementGap := 24
  const ParentPadding := 32

  datatype Point = Point(x: int, y: int)
  datatype Rect = Rect(x: int, y: int, width: int, height: int)

  /** `Number(c.column ?? 1)` and `Number(c.level ?? 1)` */
  function Col(c: Component): int { c.column.GetOr(1) }
  function Lvl(c: Component): int { c.level.GetOr(1) }

  /** The height a component is given: room for its elements, at least a row. */
  function Height(c: Component): int {
    var n := |ElementsOf(c)|;
    var fit := n * ElementH + n * ElementGap + ParentPadding * 4;
    if RowHeight + ParentPadding * 2 >= fit then RowHeight + ParentPadding * 2 else fit
  }

  /** A component with `n` elements is `max(304, 64 n + 128)` high, and more elements never
      make it lower. */
  lemma HeightFacts(a: Component, b: Component)
    ensures Height(a) == if 64 * |ElementsOf(a)| + 128 > 304 then 64 * |ElementsOf(a)| + 128 else 304
    ensures Height(a) >= 304
    ensures |ElementsOf(a)| <= |ElementsOf(b)| ==> Height(a) <= Height(b)
  {
  }

  /** The x of every component of column `col`. */
  function ColumnX(col: int): int {
    (col - 1) * (ColWidth + ColumnGap) + 60
  }

  // ---------------------------------------------------------------------------------------
  // Sorted key lists

  predicate Increasing(s: seq<int>) {
    forall i, j :: 0 <= i < j < |s| ==> s[i] < s[j]
  }

  /** Put `x` into an increasing list, unless it is there already. */
  function Insert(s: seq<int>, x: int): (r: seq<int>)
    requires Increasing(s)
    ensures Increasing(r)
    ensures forall y :: y in r <==> y in s || y == x
  {
    if s == [] then [x]
    else if x < s[0] then
      assert forall k :: 0 <= k < |s| ==> x < s[k];
      [x] + s
    else if x == s[0] then s
    else
      var t := Insert(s[1..], x);
      assert forall y :: y in s <==> y == s[0] || y in s[1..];
      AllAbove(s, x, t);
      [s[0]] + t
  }

  /** A list holding the tail of `s` and a value above its head lies wholly above the head. */
  lemma AllAbove(s: seq<int>, x: int, t: seq<int>)
    requires Increasing(s) && s != [] && s[0] < x
    requires forall y :: y in t <==> y in s[1..] || y == x
    ensures forall k :: 0 <= k < |t| ==> s[0] < t[k]
  {
    forall k | 0 <= k < |t|
      ensures s[0] < t[k]
    {
      assert t[k] in t;
      if t[k] != x {
        assert t[k] in s[1..];
        var j :| 0 <= j < |s[1..]| && s[1..][j] == t[k];
        assert s[1..][j] == s[j + 1];
      }
    }
  }

  /** `Array.from(new Set(xs)).sort((a, b) => a - b)`: the distinct values, ascending. */
  function SortedSet(xs: seq<int>): (r: seq<int>)
    ensures Increasing(r)
    ensures forall y :: y in r <==> y in xs
  {
    if xs == [] then [] else Insert(SortedSet(xs[..|xs| - 1]), xs[|xs| - 1])
  }

  lemma HeadIsMember(s: seq<int>)
    ensures s != [] ==> s[0] in s
  {
  }

  /** Two increasing lists with the same values are the same list, so the sorted keys do not
      depend on the order the keys were met in. */
  lemma {:induction false} IncreasingUnique(a: seq<int>, b: seq<int>)
    requires Increasing(a) && Increasing(b)
    requires forall y :: y in a <==> y in b
    ensures a == b
  {
    if a != [] {
      assert a[0] in a;
      assert b != [];
      assert a[0] == b[0] by {
        assert a[0] in b && b[0] in a;
      }
      forall y
        ensures y in a[1..] <==> y in b[1..]
      {
        assert y in a[1..] <==> y in a && y != a[0];
        assert y in b[1..] <==> y in b && y != b[0];
      }
      IncreasingUnique(a[1..], b[1..]);
    } else {
      HeadIsMember(b);
    }
  }

  // ---------------------------------------------------------------------------------------
  // The grid

  /** The columns of the components, in list order. */
  function Cols(comps: seq<Component>): seq<int> {
    if comps == [] then [] else Cols(comps[..|comps| - 1]) + [Col(comps[|comps| - 1])]
  }

  /** The levels of the components, in list order. */
  function Levels(comps: seq<Component>): seq<int> {
    if comps == [] then [] else Levels(comps[..|comps| - 1]) + [Lvl(comps[|comps| - 1])]
  }

  lemma {:induction false} ColsMeaning(comps: seq<Component>)
    ensures forall x :: x in Cols(comps) <==> exists c :: c in comps && Col(c) == x
    ensures forall x :: x in Levels(comps) <==> exists c :: c in comps && Lvl(c) == x
  {
    if comps != [] {
      var p := comps[..|comps| - 1];
      ColsMeaning(p);
      assert comps == p + [comps[|comps| - 1]];
    }
  }

  function InCell(col: int, lvl: int): Component -> bool {
    (c: Component) => Col(c) == col && Lvl(c) == lvl
  }

  /** The components of one grid cell, in list order. */
  function Cell(comps: seq<Component>, col: int, lvl: int): seq<Component> {
    Filter(comps, InCell(col, lvl))
  }

  /** `gridMap.get(col)?.get(lvl) || []` */
  function Lookup(grid: map<int, map<int, seq<Component>>>, col: int, lvl: int): seq<Component> {
    if col in grid && lvl in grid[col] then grid[col][lvl] else []
  }

  /** One turn of the first loop: create the missing column and cell, then push. */
  method PushComponent(grid: map<int, map<int, seq<Component>>>, colKeys: seq<int>, lvlKeys: seq<int>, c: Component)
    returns (grid': map<int, map<int, seq<Component>>>, colKeys': seq<int>, lvlKeys': seq<int>)
    ensures forall col, lvl :: Lookup(grid', col, lvl) == Lookup(grid, col, lvl) + (if InCell(col, lvl)(c) then [c] else [])
    ensures forall col :: col in grid' <==> col in grid || col == Col(c)
    ensures forall col, lvl :: col in grid' && lvl in grid'[col] <==> (col in grid && lvl in grid[col]) || (col == Col(c) && lvl == Lvl(c))
    ensures colKeys' == if Col(c) in grid then colKeys else colKeys + [Col(c)]
    ensures lvlKeys' == if Col(c) in grid && Lvl(c) in grid[Col(c)] then lvlKeys else lvlKeys + [Lvl(c)]
  {
    var col, lvl := Col(c), Lvl(c);
    grid', colKeys', lvlKeys' := grid, colKeys, lvlKeys;
    if col !in grid' {
      grid' := grid'[col := map[]];
      colKeys' := colKeys' + [col];
    }
    var lvlMap := grid'[col];
    if lvl !in lvlMap {
      lvlMap := lvlMap[lvl := []];
      lvlKeys' := lvlKeys' + [lvl];
    }
    grid' := grid'[col := lvlMap[lvl := lvlMap[lvl] + [c]]];
  }

  lemma GridStep(comps: seq<Component>, i: int)
    requires 0 <= i < |comps|
    ensures forall col, lvl :: Cell(comps[..i + 1], col, lvl) == Cell(comps[..i], col, lvl) + (if InCell(col, lvl)(comps[i]) then [comps[i]] else [])
    ensures Cols(comps[..i + 1]) == Cols(comps[..i]) + [Col(comps[i])]
    ensures Levels(comps[..i + 1]) == Levels(comps[..i]) + [Lvl(comps[i])]
  {
    assert comps[..i + 1][..i] == comps[..i];
  }

  /** What the first loop keeps after the first `n` components: each cell holds exactly its
      components so far; the column keys are the grid's columns, which are the columns seen so
      far; the level keys are the levels seen so far, and every created cell's level is one. */
  ghost predicate GridInv(comps: seq<Component>, n: int, grid: map<int, map<int, seq<Component>>>, colKeys: seq<int>, lvlKeys: seq<int>)
    requires 0 <= n <= |comps|
  {
    && (forall col, lvl :: Lookup(grid, col, lvl) == Cell(comps[..n], col, lvl))
    && (forall x :: x in colKeys <==> x in grid)
    && (forall x :: x in colKeys <==> x in Cols(comps[..n]))
    && (forall x :: x in lvlKeys <==> x in Levels(comps[..n]))
    && (forall col, lvl :: col in grid && lvl in grid[col] ==> lvl in lvlKeys)
  }

  /** Pushing component `i` as `PushComponent` does keeps the invariant. */
  lemma GridInvStep(comps: seq<Component>, i: int, grid: map<int, map<int, seq<Component>>>, colKeys: seq<int>, lvlKeys: seq<int>,
                    grid': map<int, map<int, seq<Component>>>, colKeys': seq<int>, lvlKeys': seq<int>)
    requires 0 <= i < |comps| && GridInv(comps, i, grid, colKeys, lvlKeys)
    requires forall col, lvl :: Lookup(grid', col, lvl) == Lookup(grid, col, lvl) + (if InCell(col, lvl)(comps[i]) then [comps[i]] else [])
    requires forall col :: col in grid' <==> col in grid || col == Col(comps[i])
    requires forall col, lvl :: col in grid' && lvl in grid'[col] <==> (col in grid && lvl in grid[col]) || (col == Col(comps[i]) && lvl == Lvl(comps[i]))
    requires colKeys' == if Col(comps[i]) in grid then colKeys else colKeys + [Col(comps[i])]
    requires lvlKeys' == if Col(comps[i]) in grid && Lvl(comps[i]) in grid[Col(comps[i])] then lvlKeys else lvlKeys + [Lvl(comps[i])]
    ensures GridInv(comps, i + 1, grid', colKeys', lvlKeys')
  {
    GridStep(comps, i);
  }

  /** The first loop of `computeDynamicComponentPositions`: every component pushed onto its
      cell, with the column keys and level keys collected as the cells are created. */
  method BuildGrid(comps: seq<Component>) returns (grid: map<int, map<int, seq<Component>>>, colKeys: seq<int>, lvlKeys: seq<int>)
    ensures forall col, lvl :: Lookup(grid, col, lvl) == Cell(comps, col, lvl)
    ensures forall x :: x in colKeys ==> x in grid
    ensures forall x :: x in colKeys <==> x in Cols(comps)
    ensures forall x :: x in lvlKeys <==> x in Levels(comps)
  {
    grid, colKeys, lvlKeys := map[], [], [];
    for i := 0 to |comps|
      invariant GridInv(comps, i, grid, colKeys, lvlKeys)
    {
      var grid', colKeys', lvlKeys' := PushComponent(grid, colKeys, lvlKeys, comps[i]);
      GridInvStep(comps, i, grid, colKeys, lvlKeys, grid', colKeys', lvlKeys');
      grid, colKeys, lvlKeys := grid', colKeys', lvlKeys';
    }
    assert comps[..|comps|] == comps;
  }

  // ---------------------------------------------------------------------------------------
  // Component positions

  /** The heights of a run of components, added up. */
  function SumHeights(run: seq<Component>): int {
    if run == [] then 0 else SumHeights(run[..|run| - 1]) + Height(run[|run| - 1])
  }

  /** A run of components stacked at `x` from y = 0, each directly below the one before,
      entered into `m` in run order. */
  function StackRun(m: map<string, Point>, x: int, run: seq<Component>): map<string, Point> {
    if run == [] then m
    else StackRun(m, x, run[..|run| - 1])[run[|run| - 1].id := Point(x, SumHeights(run[..|run| - 1]))]
  }

  /** Stacking one more component places it at the total height of the run before it. */
  lemma StackRunSnoc(m: map<string, Point>, x: int, run: seq<Component>, c: Component)
    ensures StackRun(m, x, run + [c]) == StackRun(m, x, run)[c.id := Point(x, SumHeights(run))]
    ensures SumHeights(run + [c]) == SumHeights(run) + Height(c)
  {
    assert (run + [c])[..|run|] == run;
  }

  /** The components of one column in placement order: level by level, and within a level in
      list order. */
  function ColumnRun(comps: seq<Component>, col: int, levels: seq<int>): seq<Component> {
    if levels == [] then [] else ColumnRun(comps, col, levels[..|levels| - 1]) + Cell(comps, col, levels[|levels| - 1])
  }

  /** The positions after the columns `cols`, each stacked on its own. */
  function LayoutCols(comps: seq<Component>, cols: seq<int>, levels: seq<int>): map<string, Point> {
    if cols == [] then map[]
    else
      var col := cols[|cols| - 1];
      StackRun(LayoutCols(comps, cols[..|cols| - 1], levels), ColumnX(col), ColumnRun(comps, col, levels))
  }

  /** The result of `computeDynamicComponentPositions`. */
  function ComponentPositions(comps: seq<Component>): map<string, Point> {
    LayoutCols(comps, SortedSet(Cols(comps)), SortedSet(Levels(comps)))
  }

  /** The innermost loop: the cell's components placed at the cursor, one below the other. */
  method StackCell(pos: map<string, Point>, col: int, cell: seq<Component>, lastY: int, lastCompHeight: int,
                   ghost base: map<string, Point>, ghost run: seq<Component>)
    returns (pos': map<string, Point>, lastY': int, lastCompHeight': int)
    requires pos == StackRun(base, ColumnX(col), run) && lastY + lastCompHeight == SumHeights(run)
    ensures pos' == StackRun(base, ColumnX(col), run + cell) && lastY' + lastCompHeight' == SumHeights(run + cell)
  {
    pos', lastY', lastCompHeight' := pos, lastY, lastCompHeight;
    assert run + cell[..0] == run;
    for k := 0 to |cell|
      invariant pos' == StackRun(base, ColumnX(col), run + cell[..k])
      invariant lastY' + lastCompHeight' == SumHeights(run + cell[..k])
    {
      var comp := cell[k];
      assert run + cell[..k + 1] == (run + cell[..k]) + [comp];
      StackRunSnoc(base, ColumnX(col), run + cell[..k], comp);
      var compHeight := Height(comp);
      var x := (col - 1) * (ColWidth + ColumnGap) + 60;
      var y := lastY' + lastCompHeight';
      pos' := pos'[comp.id := Point(x, y)];
      lastY' := y;
      lastCompHeight' := compHeight;
    }
    assert cell[..|cell|] == cell;
  }

  /** One column: the cursor starts at 0 and runs through the levels in ascending order. */
  method StackColumn(comps: seq<Component>, pos: map<string, Point>, col: int, lvlMap: map<int, seq<Component>>, sortedLevels: seq<int>)
    returns (pos': map<string, Point>)
    requires forall lvl :: (if lvl in lvlMap then lvlMap[lvl] else []) == Cell(comps, col, lvl)
    ensures pos' == StackRun(pos, ColumnX(col), ColumnRun(comps, col, sortedLevels))
  {
    pos' := pos;
    var lastCompHeight, lastY := 0, 0;
    ghost var run: seq<Component> := [];
    for li := 0 to |sortedLevels|
      invariant run == ColumnRun(comps, col, sortedLevels[..li])
      invariant pos' == StackRun(pos, ColumnX(col), run)
      invariant lastY + lastCompHeight == SumHeights(run)
    {
      var lvl := sortedLevels[li];
      var cell := if lvl in lvlMap then lvlMap[lvl] else [];
      assert sortedLevels[..li + 1][..li] == sortedLevels[..li];
      pos', lastY, lastCompHeight := StackCell(pos', col, cell, lastY, lastCompHeight, pos, run);
      run := run + cell;
    }
    assert sortedLevels[..|sortedLevels|] == sortedLevels;
  }

  /** One more column of the layout stacks that column's run on the columns before it. */
  lemma LayoutColsStep(comps: seq<Component>, cols: seq<int>, levels: seq<int>, ci: nat)
    requires ci < |cols|
    ensures LayoutCols(comps, cols[..ci + 1], levels) ==
      StackRun(LayoutCols(comps, cols[..ci], levels), ColumnX(cols[ci]), ColumnRun(comps, cols[ci], levels))
  {
    assert cols[..ci + 1][..ci] == cols[..ci];
  }

  /** The cells of a column present in the grid are its level map's entries. */
  lemma GridColumn(comps: seq<Component>, grid: map<int, map<int, seq<Component>>>, col: int)
    requires col in grid && forall col, lvl :: Lookup(grid, col, lvl) == Cell(comps, col, lvl)
    ensures forall lvl :: (if lvl in grid[col] then grid[col][lvl] else []) == Cell(comps, col, lvl)
  {
    forall lvl
      ensures (if lvl in grid[col] then grid[col][lvl] else []) == Cell(comps, col, lvl)
    {
      assert Lookup(grid, col, lvl) == Cell(comps, col, lvl);
    }
  }

  /** One turn of the column loop: the next column's run stacked on the columns before it. */
  method StackNextColumn(comps: seq<Component>, grid: map<int, map<int, seq<Component>>>, pos: map<string, Point>,
                         sortedCols: seq<int>, sortedLevels: seq<int>, ci: nat)
    returns (pos': map<string, Point>)
    requires ci < |sortedCols| && sortedCols[ci] in grid
    requires forall col, lvl :: Lookup(grid, col, lvl) == Cell(comps, col, lvl)
    requires pos == LayoutCols(comps, sortedCols[..ci], sortedLevels)
    ensures pos' == LayoutCols(comps, sortedCols[..ci + 1], sortedLevels)
  {
    var col := sortedCols[ci];
    LayoutColsStep(comps, sortedCols, sortedLevels, ci);
    GridColumn(comps, grid, col);
    pos' := StackColumn(comps, pos, col, grid[col], sortedLevels);
  }

  /** `computeDynamicComponentPositions`: the grid, the sorted keys, then per column a cursor
      `y = lastY + lastCompHeight` that starts at 0. */
  method ComputeComponentPositions(comps: seq<Component>) returns (pos: map<string, Point>)
    ensures pos == ComponentPositions(comps)
  {
    var grid, colKeys, lvlKeys := BuildGrid(comps);
    var sortedCols := SortedSet(colKeys);
    var sortedLevels := SortedSet(lvlKeys);
    IncreasingUnique(sortedCols, SortedSet(Cols(comps)));
    IncreasingUnique(sortedLevels, SortedSet(Levels(comps)));
    assert forall k :: 0 <= k < |sortedCols| ==> sortedCols[k] in grid;
    pos := map[];
    for ci := 0 to |sortedCols|
      invariant pos == LayoutCols(comps, sortedCols[..ci], sortedLevels)
    {
      pos := StackNextColumn(comps, grid, pos, sortedCols, sortedLevels, ci);
    }
    assert sortedCols[..|sortedCols|] == sortedCols;
  }

  // ---------------------------------------------------------------------------------------
  // What the positions are

  /** Stacking a run enters every id of the run and keeps every other entry. */
  lemma {:induction false} StackRunDomain(m: map<string, Point>, x: int, run: seq<Component>)
    ensures forall id :: id in StackRun(m, x, run) <==> id in m || exists c :: c in run && c.id == id
  {
    if run != [] {
      var p := run[..|run| - 1];
      StackRunDomain(m, x, p);
      assert run == p + [run[|run| - 1]];
    }
  }

  /** An entry a run does not name is kept as it was. */
  lemma {:induction false} StackRunOther(m: map<string, Point>, x: int, run: seq<Component>, id: string)
    requires id in m && forall c :: c in run ==> c.id != id
    ensures id in StackRun(m, x, run) && StackRun(m, x, run)[id] == m[id]
  {
    if run != [] {
      StackRunOther(m, x, run[..|run| - 1], id);
    }
  }

  /** The entry of the last component of a run with a given id: that component's column x and
      the total height of the components stacked above it (a later duplicate overwrites). */
  lemma {:induction false} StackRunAt(m: map<string, Point>, x: int, run: seq<Component>, k: int)
    requires 0 <= k < |run| && forall j :: k < j < |run| ==> run[j].id != run[k].id
    ensures run[k].id in StackRun(m, x, run) && StackRun(m, x, run)[run[k].id] == Point(x, SumHeights(run[..k]))
  {
    if k < |run| - 1 {
      var p := run[..|run| - 1];
      StackRunAt(m, x, p, k);
      assert p[..k] == run[..k];
    } else {
      assert run[..|run| - 1] == run[..k];
    }
  }

  /** Every stacked entry is either kept from `m` or at x with the height of some run prefix. */
  lemma {:induction false} StackRunKinds(m: map<string, Point>, x: int, run: seq<Component>, id: string)
    requires id in StackRun(m, x, run)
    ensures (id in m && StackRun(m, x, run)[id] == m[id]) || exists c :: c in run && c.id == id && StackRun(m, x, run)[id].x == x
  {
    if run != [] {
      var p := run[..|run| - 1];
      if id != run[|run| - 1].id {
        StackRunKinds(m, x, p, id);
        if !(id in m && StackRun(m, x, p)[id] == m[id]) {
          var c :| c in p && c.id == id && StackRun(m, x, p)[id].x == x;
          assert c in run;
        }
      }
    }
  }

  lemma {:induction false} ColumnRunMeaning(comps: seq<Component>, col: int, levels: seq<int>)
    ensures forall c :: c in ColumnRun(comps, col, levels) <==> c in comps && Col(c) == col && Lvl(c) in levels
  {
    if levels != [] {
      var p := levels[..|levels| - 1];
      ColumnRunMeaning(comps, col, p);
      assert levels == p + [levels[|levels| - 1]];
    }
  }

  lemma {:induction false} LayoutColsDomain(comps: seq<Component>, cols: seq<int>, levels: seq<int>)
    ensures forall id :: id in LayoutCols(comps, cols, levels) <==>
      exists c :: c in comps && c.id == id && Col(c) in cols && Lvl(c) in levels
  {
    if cols != [] {
      var p := cols[..|cols| - 1];
      var col := cols[|cols| - 1];
      LayoutColsDomain(comps, p, levels);
      StackRunDomain(LayoutCols(comps, p, levels), ColumnX(col), ColumnRun(comps, col, levels));
      ColumnRunMeaning(comps, col, levels);
      assert cols == p + [col];
    }
  }

  /** Every component id gets a position and nothing else does. */
  lemma PositionsDomain(comps: seq<Component>)
    ensures forall id :: id in ComponentPositions(comps) <==> exists c :: c in comps && c.id == id
  {
    LayoutColsDomain(comps, SortedSet(Cols(comps)), SortedSet(Levels(comps)));
    ColsMeaning(comps);
    forall c | c in comps
      ensures Col(c) in Cols(comps) && Lvl(c) in Levels(comps)
    {
    }
  }

  lemma {:induction false} LayoutColsX(comps: seq<Component>, cols: seq<int>, levels: seq<int>, id: string)
    requires id in LayoutCols(comps, cols, levels)
    ensures exists c :: c in comps && c.id == id && LayoutCols(comps, cols, levels)[id].x == ColumnX(Col(c))
  {
    var p := cols[..|cols| - 1];
    var col := cols[|cols| - 1];
    var prev := LayoutCols(comps, p, levels);
    StackRunKinds(prev, ColumnX(col), ColumnRun(comps, col, levels), id);
    ColumnRunMeaning(comps, col, levels);
    if id in prev && LayoutCols(comps, cols, levels)[id] == prev[id] {
      LayoutColsX(comps, p, levels, id);
    }
  }

  /** Every position has the x of the column of a component with that id, whatever its
      level. */
  lemma PositionsX(comps: seq<Component>, id: string)
    requires id in ComponentPositions(comps)
    ensures exists c :: c in comps && c.id == id && ComponentPositions(comps)[id].x == ColumnX(Col(c))
  {
    LayoutColsX(comps, SortedSet(Cols(comps)), SortedSet(Levels(comps)), id);
  }

  /** No two components share an id. */
  ghost predicate UniqueIds(comps: seq<Component>) {
    forall i, j :: 0 <= i < |comps| && 0 <= j < |comps| && comps[i].id == comps[j].id ==> i == j
  }

  lemma {:induction false} FilterNoDuplicates<T(!new)>(s: seq<T>, keep: T -> bool)
    requires NoDuplicates(s)
    ensures NoDuplicates(Filter(s, keep))
  {
    if s != [] {
      var p := s[..|s| - 1];
      FilterNoDuplicates(p, keep);
      assert s[|s| - 1] !in p;
    }
  }

  /** A column run lists each component once, level by level in ascending order, and within
      a level in list order. */
  lemma {:induction false} ColumnRunOrder(comps: seq<Component>, col: int, levels: seq<int>)
    requires NoDuplicates(comps) && Increasing(levels)
    ensures var run := ColumnRun(comps, col, levels);
      && NoDuplicates(run)
      && forall a, b :: 0 <= a < b < |run| ==>
           (Lvl(run[a]) < Lvl(run[b]) ||
            (Lvl(run[a]) == Lvl(run[b]) && exists i, j :: 0 <= i < j < |comps| && comps[i] == run[a] && comps[j] == run[b]))
  {
    if levels != [] {
      var p := levels[..|levels| - 1];
      var lvl := levels[|levels| - 1];
      var head := ColumnRun(comps, col, p);
      var cell := Cell(comps, col, lvl);
      var run := ColumnRun(comps, col, levels);
      ColumnRunOrder(comps, col, p);
      ColumnRunMeaning(comps, col, p);
      FilterNoDuplicates(comps, InCell(col, lvl));
      assert forall y :: y in p ==> y < lvl;
      forall a, b | 0 <= a < b < |run|
        ensures run[a] != run[b]
        ensures Lvl(run[a]) < Lvl(run[b]) ||
            (Lvl(run[a]) == Lvl(run[b]) && exists i, j :: 0 <= i < j < |comps| && comps[i] == run[a] && comps[j] == run[b])
      {
        if b < |head| {
          assert run[a] == head[a] && run[b] == head[b];
        } else if a < |head| {
          assert run[a] == head[a] && run[b] == cell[b - |head|];
          assert head[a] in head && cell[b - |head|] in cell;
        } else {
          assert run[a] == cell[a - |head|] && run[b] == cell[b - |head|];
          assert cell[a - |head|] in cell && cell[b - |head|] in cell;
          FilterKeepsOrder(comps, InCell(col, lvl), a - |head|, b - |head|);
        }
      }
    }
  }

  /** With unique ids, different components have different ids. */
  lemma UniqueIdsDistinct(comps: seq<Component>, c: Component, d: Component)
    requires UniqueIds(comps) && c in comps && d in comps && c != d
    ensures c.id != d.id
  {
    var i :| 0 <= i < |comps| && comps[i] == c;
    var j :| 0 <= j < |comps| && comps[j] == d;
    assert i != j;
  }

  lemma UniqueIdsNoDuplicates(comps: seq<Component>)
    requires UniqueIds(comps)
    ensures NoDuplicates(comps)
  {
  }

  lemma {:induction false} LayoutColsAt(comps: seq<Component>, cols: seq<int>, levels: seq<int>, col: int, k: int)
    requires UniqueIds(comps) && Increasing(levels) && col in cols
    requires 0 <= k < |ColumnRun(comps, col, levels)|
    ensures var run := ColumnRun(comps, col, levels);
      run[k].id in LayoutCols(comps, cols, levels) &&
      LayoutCols(comps, cols, levels)[run[k].id] == Point(ColumnX(col), SumHeights(run[..k]))
  {
    var run := ColumnRun(comps, col, levels);
    var p := cols[..|cols| - 1];
    var last := cols[|cols| - 1];
    var prev := LayoutCols(comps, p, levels);
    ColumnRunMeaning(comps, col, levels);
    ColumnRunMeaning(comps, last, levels);
    assert run[k] in run;
    if last == col {
      UniqueIdsNoDuplicates(comps);
      ColumnRunOrder(comps, col, levels);
      forall j | k < j < |run|
        ensures run[j].id != run[k].id
      {
        assert run[j] in run && run[j] != run[k];
        UniqueIdsDistinct(comps, run[j], run[k]);
      }
      StackRunAt(prev, ColumnX(col), run, k);
    } else {
      assert col in p by { assert cols == p + [last]; }
      LayoutColsAt(comps, p, levels, col, k);
      forall c | c in ColumnRun(comps, last, levels)
        ensures c.id != run[k].id
      {
        assert Col(c) == last && Col(run[k]) == col;
        UniqueIdsDistinct(comps, c, run[k]);
      }
      StackRunOther(prev, ColumnX(last), ColumnRun(comps, last, levels), run[k].id);
    }
  }

  /** With unique ids, the component placed `k`-th in its column is at the column's x and,
      as y, the total height of the components placed above it; the first one is at y = 0. */
  lemma PositionInColumn(comps: seq<Component>, col: int, k: int)
    requires UniqueIds(comps)
    requires 0 <= k < |ColumnRun(comps, col, SortedSet(Levels(comps)))|
    ensures var run := ColumnRun(comps, col, SortedSet(Levels(comps)));
      && run[k].id in ComponentPositions(comps)
      && ComponentPositions(comps)[run[k].id] == Point(ColumnX(col), SumHeights(run[..k]))
      && (k == 0 ==> ComponentPositions(comps)[run[k].id].y == 0)
  {
    var run := ColumnRun(comps, col, SortedSet(Levels(comps)));
    ColumnRunMeaning(comps, col, SortedSet(Levels(comps)));
    ColsMeaning(comps);
    assert run[k] in run;
    assert col in SortedSet(Cols(comps));
    LayoutColsAt(comps, SortedSet(Cols(comps)), SortedSet(Levels(comps)), col, k);
  }

  lemma {:induction false} SumHeightsGrow(run: seq<Component>, i: int, j: int)
    requires 0 <= i < j <= |run|
    ensures SumHeights(run[..i]) + Height(run[i]) <= SumHeights(run[..j])
    ensures j == i + 1 ==> SumHeights(run[..j]) == SumHeights(run[..i]) + Height(run[i])
  {
    assert run[..j][..j - 1] == run[..j - 1];
    if j > i + 1 {
      SumHeightsGrow(run, i, j - 1);
      HeightFacts(run[j - 1], run[j - 1]);
    } else {
      assert run[..j - 1] == run[..i];
    }
  }

  /** Within a column, each component starts where the one placed before it ends, so no two of
      them overlap and y strictly increases down the column. */
  lemma ColumnStacking(comps: seq<Component>, col: int, a: int, b: int)
    requires UniqueIds(comps)
    requires 0 <= a < b < |ColumnRun(comps, col, SortedSet(Levels(comps)))|
    ensures var run := ColumnRun(comps, col, SortedSet(Levels(comps))); var pos := ComponentPositions(comps);
      && run[a].id in pos && run[b].id in pos
      && pos[run[a].id].y + Height(run[a]) <= pos[run[b].id].y
      && pos[run[a].id].y < pos[run[b].id].y
      && (b == a + 1 ==> pos[run[b].id].y == pos[run[a].id].y + Height(run[a]))
  {
    var run := ColumnRun(comps, col, SortedSet(Levels(comps)));
    PositionInColumn(comps, col, a);
    PositionInColumn(comps, col, b);
    SumHeightsGrow(run, a, b);
    HeightFacts(run[a], run[a]);
  }

  // ---------------------------------------------------------------------------------------
  // Element positions

  /** `compPositions.get(comp.id) ?? { x: ((comp.column ?? 1) - 1) * 480, y: 0 }` */
  function ParentPos(compPositions: map<string, Point>, c: Component): Point {
    if c.id in compPositions then compPositions[c.id] else Point((c.column.GetOr(1) - 1) * (ColWidth + ColumnGap), 0)
  }

  /** The box of the element at index `idx` inside a component placed at `parent`. */
  function ElementRect(parent: Point, idx: int): Rect {
    Rect(parent.x + (ColWidth - ElementW) / 2, parent.y + 60 + idx * (ElementH + ElementGap), ElementW, ElementH)
  }

  /** The first `n` elements of one component entered into `m`, a later id overwriting. */
  function PlaceElements(m: map<string, Rect>, els: seq<Element>, parent: Point, n: nat): map<string, Rect>
    requires n <= |els|
  {
    if n == 0 then m else PlaceElements(m, els, parent, n - 1)[els[n - 1].id := ElementRect(parent, n - 1)]
  }

  /** The element boxes after the first `n` components; a component without an `elements`
      array adds none. */
  function ElementPositionsUpTo(comps: seq<Component>, compPositions: map<string, Point>, n: nat): map<string, Rect>
    requires n <= |comps|
  {
    if n == 0 then map[]
    else
      var c := comps[n - 1];
      var prev := ElementPositionsUpTo(comps, compPositions, n - 1);
      if c.elements.Some? then PlaceElements(prev, c.elements.value, ParentPos(compPositions, c), |c.elements.value|) else prev
  }

  /** The result of `computeElementPositions`. */
  function ElementPositions(comps: seq<Component>, compPositions: map<string, Point>): map<string, Rect> {
    ElementPositionsUpTo(comps, compPositions, |comps|)
  }

  /** `computeElementPositions`: for each component with an `elements` array, its elements
      top to bottom below the parent's top edge. */
  method ComputeElementPositions(comps: seq<Component>, compPositions: map<string, Point>) returns (elPositions: map<string, Rect>)
    ensures elPositions == ElementPositions(comps, compPositions)
  {
    elPositions := map[];
    for ci := 0 to |comps|
      invariant elPositions == ElementPositionsUpTo(comps, compPositions, ci)
    {
      var comp := comps[ci];
      var parentPos := if comp.id in compPositions then compPositions[comp.id]
                       else Point((comp.column.GetOr(1) - 1) * (ColWidth + ColumnGap), 0);
      if comp.elements.Some? {
        var els := comp.elements.value;
        var startY := parentPos.y + 60;
        for idx := 0 to |els|
          invariant elPositions == PlaceElements(ElementPositionsUpTo(comps, compPositions, ci), els, parentPos, idx)
        {
          var width, height := ElementW, ElementH;
          var x := parentPos.x + (ColWidth - width) / 2;
          var y := startY + idx * (height + ElementGap);
          elPositions := elPositions[els[idx].id := Rect(x, y, width, height)];
        }
      }
    }
  }

  /** Element `i` is 240 by 40 at `(parent.x + 40, parent.y + 60 + 64 i)`: consecutive
      elements are 24 apart and never overlap. */
  lemma ElementRectFacts(parent: Point, i: int)
    ensures ElementRect(parent, i) == Rect(parent.x + 40, parent.y + 60 + 64 * i, 240, 40)
    ensures ElementRect(parent, i).y + ElementRect(parent, i).height + ElementGap == ElementRect(parent, i + 1).y
  {
  }

  /** Every element box lies inside the box of its component, which is `ColWidth` wide and as
      high as `Height` makes it. */
  lemma ElementInsideComponent(parent: Point, c: Component, i: int)
    requires 0 <= i < |ElementsOf(c)|
    ensures var r := ElementRect(parent, i);
      && parent.x <= r.x && r.x + r.width <= parent.x + ColWidth
      && parent.y <= r.y && r.y + r.height <= parent.y + Height(c)
  {
    HeightFacts(c, c);
  }

  lemma {:induction false} PlaceElementsDomain(m: map<string, Rect>, els: seq<Element>, parent: Point, n: nat)
    requires n <= |els|
    ensures forall id :: id in PlaceElements(m, els, parent, n) <==> id in m || exists j :: 0 <= j < n && els[j].id == id
  {
    if n > 0 {
      PlaceElementsDomain(m, els, parent, n - 1);
    }
  }

  lemma {:induction false} PlaceElementsAt(m: map<string, Rect>, els: seq<Element>, parent: Point, n: nat, j: nat)
    requires j < n <= |els| && forall k :: j < k < n ==> els[k].id != els[j].id
    ensures els[j].id in PlaceElements(m, els, parent, n) && PlaceElements(m, els, parent, n)[els[j].id] == ElementRect(parent, j)
  {
    if j < n - 1 {
      PlaceElementsAt(m, els, parent, n - 1, j);
    }
  }

  lemma {:induction false} PlaceElementsOther(m: map<string, Rect>, els: seq<Element>, parent: Point, n: nat, id: string)
    requires n <= |els| && id in m && forall k :: 0 <= k < n ==> els[k].id != id
    ensures id in PlaceElements(m, els, parent, n) && PlaceElements(m, els, parent, n)[id] == m[id]
  {
    if n > 0 {
      PlaceElementsOther(m, els, parent, n - 1, id);
    }
  }

  lemma {:induction false} ElementPositionsUpToDomain(comps: seq<Component>, cp: map<string, Point>, n: nat)
    requires n <= |comps|
    ensures forall id :: id in ElementPositionsUpTo(comps, cp, n) <==>
      exists p :: ValidPos(comps, p) && p.comp < n && ElementAt(comps, p).id == id
  {
    if n > 0 {
      ElementPositionsUpToDomain(comps, cp, n - 1);
      var c := comps[n - 1];
      var prev := ElementPositionsUpTo(comps, cp, n - 1);
      if c.elements.Some? {
        PlaceElementsDomain(prev, c.elements.value, ParentPos(cp, c), |c.elements.value|);
      }
      forall id | (exists p :: ValidPos(comps, p) && p.comp < n && ElementAt(comps, p).id == id)
        ensures id in ElementPositionsUpTo(comps, cp, n)
      {
        var p :| ValidPos(comps, p) && p.comp < n && ElementAt(comps, p).id == id;
        if p.comp < n - 1 {
          assert id in prev;
        }
      }
      forall id | id in ElementPositionsUpTo(comps, cp, n)
        ensures exists p :: ValidPos(comps, p) && p.comp < n && ElementAt(comps, p).id == id
      {
        if id !in prev {
          var j :| 0 <= j < |ElementsOf(c)| && ElementsOf(c)[j].id == id;
          assert ValidPos(comps, Pos(n - 1, j));
        }
      }
    }
  }

  /** Every element id gets a box and nothing else does. */
  lemma ElementPositionsDomain(comps: seq<Component>, cp: map<string, Point>, id: string)
    ensures id in ElementPositions(comps, cp) <==> IsElementId(comps, id)
  {
    ElementPositionsUpToDomain(comps, cp, |comps|);
    if IsElementId(comps, id) {
      var i, j :| 0 <= i < |comps| && 0 <= j < |ElementsOf(comps[i])| && ElementsOf(comps[i])[j].id == id;
      assert ValidPos(comps, Pos(i, j));
    }
  }

  lemma {:induction false} ElementPositionsUpToAt(comps: seq<Component>, cp: map<string, Point>, n: nat, p: Pos)
    requires n <= |comps| && UniqueElementIds(comps) && ValidPos(comps, p) && p.comp < n
    ensures var id := ElementAt(comps, p).id;
      id in ElementPositionsUpTo(comps, cp, n) &&
      ElementPositionsUpTo(comps, cp, n)[id] == ElementRect(ParentPos(cp, comps[p.comp]), p.el)
  {
    var id := ElementAt(comps, p).id;
    var c := comps[n - 1];
    var prev := ElementPositionsUpTo(comps, cp, n - 1);
    if p.comp == n - 1 {
      var els := c.elements.value;
      forall k | p.el < k < |els|
        ensures els[k].id != id
      {
        assert ValidPos(comps, Pos(n - 1, k));
      }
      PlaceElementsAt(prev, els, ParentPos(cp, c), |els|, p.el);
    } else {
      ElementPositionsUpToAt(comps, cp, n - 1, p);
      if c.elements.Some? {
        var els := c.elements.value;
        forall k | 0 <= k < |els|
          ensures els[k].id != id
        {
          assert ValidPos(comps, Pos(n - 1, k));
        }
        PlaceElementsOther(prev, els, ParentPos(cp, c), |els|, id);
      }
    }
  }

  /** With unique element ids, the element at index `i` of a component has the box
      `ElementRect(parent, i)`, its parent being the component's position or the fallback. */
  lemma ElementPositionAt(comps: seq<Component>, cp: map<string, Point>, p: Pos)
    requires UniqueElementIds(comps) && ValidPos(comps, p)
    ensures var id := ElementAt(comps, p).id;
      id in ElementPositions(comps, cp) &&
      ElementPositions(comps, cp)[id] == ElementRect(ParentPos(cp, comps[p.comp]), p.el)
  {
    ElementPositionsUpToAt(comps, cp, |comps|, p);
  }

  // ---------------------------------------------------------------------------------------
  // Canvas size

  datatype Canvas = Canvas(maxX: int, maxY: int)

  /** `Math.max(0, ...xs)` */
  function MaxOrZero(xs: seq<int>): (m: int)
    ensures m >= 0 && forall i :: 0 <= i < |xs| ==> xs[i] <= m
    ensures m == 0 || exists i :: 0 <= i < |xs| && xs[i] == m
  {
    if xs == [] then 0
    else
      var r := MaxOrZero(xs[..|xs| - 1]);
      var x := xs[|xs| - 1];
      if x > r then x else r
  }

  function Xs(ps: seq<Point>): (r: seq<int>)
    ensures |r| == |ps| && forall k :: 0 <= k < |ps| ==> r[k] == ps[k].x
  {
    seq(|ps|, k requires 0 <= k < |ps| => ps[k].x)
  }

  function Ys(ps: seq<Point>): (r: seq<int>)
    ensures |r| == |ps| && forall k :: 0 <= k < |ps| ==> r[k] == ps[k].y
  {
    seq(|ps|, k requires 0 <= k < |ps| => ps[k].y)
  }

  /** `computeCanvasSize` over the values of the position map: 440 past the largest x and
      360 past the largest y, neither below that margin from 0; an empty map gives
      (440, 360). */
  function CanvasSize(ps: seq<Point>): (r: Canvas)
    ensures forall k :: 0 <= k < |ps| ==> ps[k].x + 440 <= r.maxX && ps[k].y + 360 <= r.maxY
    ensures r.maxX >= 440 && r.maxY >= 360
    ensures r.maxX == 440 || exists k :: 0 <= k < |ps| && r.maxX == ps[k].x + 440
    ensures r.maxY == 360 || exists k :: 0 <= k < |ps| && r.maxY == ps[k].y + 360
    ensures ps == [] ==> r == Canvas(440, 360)
  {
    Canvas(MaxOrZero(Xs(ps)) + ColWidth + 120, MaxOrZero(Ys(ps)) + RowHeight + 120)
  }

  /** The margin below the lowest top edge is 360, while a component with four or more
      elements is taller than that: the canvas height does not always cover the lowest
      component's box. */
  lemma TallComponentPassesMargin(c: Component)
    requires |ElementsOf(c)| >= 4
    ensures Height(c) > RowHeight + 120
  {
  }

  /** So a component with four or more elements, placed at a lowest position that is not
      above 0, has its bottom edge below the canvas height. */
  lemma TallComponentCutOff(c: Component, ps: seq<Point>, k: int)
    requires |ElementsOf(c)| >= 4
    requires 0 <= k < |ps| && ps[k].y >= 0
    requires forall j :: 0 <= j < |ps| ==> ps[j].y <= ps[k].y
    ensures CanvasSize(ps).maxY < ps[k].y + Height(c)
  {
    var r := CanvasSize(ps);
    TallComponentPassesMargin(c);
    if r.maxY != 360 {
      var j :| 0 <= j < |ps| && r.maxY == ps[j].y + 360;
      assert ps[j].y <= ps[k].y;
    }
  }
}
