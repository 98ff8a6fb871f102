/**
  The grid builder: walks the rows and their cells with a column cursor, skips slots
  already claimed by earlier spans, grows the grid on demand, writes each cell's
  trimmed text at its anchor and fills the rest of its footprint with placeholders,
  and records spanning cells, attribute lists and covered positions on the way.
*/
module GridBuilder {
  import opened Wrappers
  import opened Text
  import opened Table

  function Max(a: nat, b: nat): nat
  {
    if a >= b then a else b
  }

  /** Row `r` of the grid, or an empty row if the grid does not have it yet. */
  function RowOf(grid: Grid, r: nat): seq<Slot>
  {
    if r < |grid| then grid[r] else []
  }

  /** `row` extended with `None` slots to length `n`; unchanged when it is already that long. */
  function Padded(row: seq<Slot>, n: nat): (r: seq<Slot>)
    ensures |r| == Max(|row|, n) && r[..|row|] == row
    ensures forall k :: |row| <= k < |r| ==> r[k] == None
  {
    if |row| >= n then row else row + seq(n - |row|, _ => None)
  }

  /** Every slot of `grid` is still there, with the same value, in `g`. */
  ghost predicate Extends(grid: Grid, g: Grid)
  {
    |g| >= |grid| && forall r :: 0 <= r < |grid| ==> |g[r]| >= |grid[r]| && g[r][..|grid[r]|] == grid[r]
  }

  // ---------------------------------------------------------------- cursor

  /**
    The column the cursor stops at when it starts at `from`: the first column of `row`
    whose slot is `None`, or the first column past the end of the row. Every slot it
    passes over is filled.
  */
  function FirstFree(row: seq<Slot>, from: nat): (c: nat)
    ensures from <= c <= Max(from, |row|)
    ensures forall j :: from <= j < c ==> j < |row| && row[j].Some?
    ensures c < |row| ==> row[c].None?
    decreases |row| - from
  {
    if from < |row| && row[from].Some? then FirstFree(row, from + 1) else from
  }

  /** The skipping loop: moves the cursor from `from` past the filled slots of `row`. */
  method SkipFilled(row: seq<Slot>, from: nat) returns (c: nat)
    ensures c == FirstFree(row, from)
  {
    c := from;
    while c < |row| && row[c].Some?
      invariant from <= c && FirstFree(row, c) == FirstFree(row, from)
      decreases |row| - c
    {
      c := c + 1;
    }
  }

  // ---------------------------------------------------------------- growth

  /**
    The grid grown for a cell that needs `neededRows` rows and `neededCols` columns:
    empty rows appended up to `neededRows`, and each of the first `neededRows` rows
    padded with `None` to `neededCols` slots.
  */
  function Grown(grid: Grid, neededRows: nat, neededCols: nat): Grid
  {
    seq(Max(|grid|, neededRows), (r: int) requires 0 <= r => Padded(RowOf(grid, r), if r < neededRows then neededCols else 0))
  }

  /**
    Growing keeps every slot and adds only `None` slots, so every filled slot of the
    grown grid was already in the grid; row lengths stay non-increasing downwards.
  */
  lemma GrownExtends(grid: Grid, neededRows: nat, neededCols: nat)
    ensures Extends(grid, Grown(grid, neededRows, neededCols))
    ensures OnlyNoneAdded(grid, Grown(grid, neededRows, neededCols))
    ensures NonIncreasing(grid) ==> NonIncreasing(Grown(grid, neededRows, neededCols))
  {
    var g: Grid := Grown(grid, neededRows, neededCols);
    forall r | 0 <= r < |grid|
      ensures |g[r]| >= |grid[r]| && g[r][..|grid[r]|] == grid[r]
    {
      assert RowOf(grid, r) == grid[r];
    }
    forall r: int, c: int | 0 <= r < |g| && 0 <= c < |g[r]| && g[r][c].Some?
      ensures InGrid(grid, (r, c))
    {
      var row := RowOf(grid, r);
      assert g[r] == Padded(row, if r < neededRows then neededCols else 0);
      assert c < |row|;
    }
    if NonIncreasing(grid) {
      forall r, r' | 0 <= r < r' < |g|
        ensures |g[r]| >= |g[r']|
      {
        assert |RowOf(grid, r)| >= |RowOf(grid, r')|;
      }
    }
  }

  /**
    The growing loops of lines 84-92: append empty rows up to `neededRows`, then pad
    each of the first `neededRows` rows with `None` to `neededCols` slots.
  */
  method Grow(grid: Grid, neededRows: nat, neededCols: nat) returns (g: Grid)
    ensures g == Grown(grid, neededRows, neededCols)
  {
    g := grid;
    while |g| < neededRows
      invariant |grid| <= |g| <= Max(|grid|, neededRows)
      invariant forall r :: 0 <= r < |g| ==> g[r] == RowOf(grid, r)
      decreases neededRows - |g|
    {
      g := g + [[]];
    }
    for r := 0 to neededRows
      invariant |g| == Max(|grid|, neededRows)
      invariant forall i :: 0 <= i < |g| ==> g[i] == Padded(RowOf(grid, i), if i < r then neededCols else 0)
    {
      var row := g[r];
      ghost var old_row := RowOf(grid, r);
      assert row == old_row;
      while |row| < neededCols
        invariant |old_row| <= |row| <= Max(|old_row|, neededCols)
        invariant row[..|old_row|] == old_row
        invariant forall k :: |old_row| <= k < |row| ==> row[k] == None
        decreases neededCols - |row|
      {
        row := row + [None];
      }
      assert row == Padded(old_row, neededCols);
      g := g[r := row];
    }
  }

  // ---------------------------------------------------------------- placement

  /**
    The state after a cell is placed at anchor `a`: its text at the anchor, `Some("")`
    on the rest of its footprint, every other slot unchanged; its attribute list
    recorded if non-empty; a spanning record if it spans more than one slot; and
    the footprint other than the anchor added to the covered positions.
  */
  ghost predicate Placement(b: Layout, b': Layout, a: Pos, rowspan: nat, colspan: nat, content: string, attributes: seq<Attr>)
  {
    && |b'.grid| == |b.grid|
    && (forall r :: 0 <= r < |b.grid| ==> |b'.grid[r]| == |b.grid[r]|)
    && (forall r, c :: 0 <= r < |b.grid| && 0 <= c < |b.grid[r]| ==>
          b'.grid[r][c] == if (r, c) == a then Some(content)
                           else if InSpan((r, c), a, rowspan, colspan) then Some("")
                           else b.grid[r][c])
    && b'.cellAttrs == (if attributes == [] then b.cellAttrs else b.cellAttrs[a := attributes])
    && b'.merged == (if rowspan > 1 || colspan > 1
                     then b.merged[a := MergedCell(rowspan, colspan, content, attributes)]
                     else b.merged)
    && (forall p :: p in b'.occupied <==> p in b.occupied || (InSpan(p, a, rowspan, colspan) && p != a))
  }

  /** The footprint of a cell anchored at `a`, other than `a` itself. */
  function Footprint(a: Pos, rowspan: nat, colspan: nat): (s: set<Pos>)
    ensures forall p :: p in s <==> InSpan(p, a, rowspan, colspan) && p != a
  {
    set r: nat, c: nat | a.0 <= r < a.0 + rowspan && a.1 <= c < a.1 + colspan && (r, c) != a :: (r, c)
  }

  /** Slot (r, c) after a cell is placed at `a`. */
  function StampedSlot(b: Layout, r: nat, c: nat, a: Pos, rowspan: nat, colspan: nat, content: string): Slot
    requires r < |b.grid| && c < |b.grid[r]|
  {
    if (r, c) == a then Some(content)
    else if InSpan((r, c), a, rowspan, colspan) then Some("")
    else b.grid[r][c]
  }

  /** The state after a cell is placed at anchor `a`, as lines 95-123 compute it. */
  function AfterPlace(b: Layout, a: Pos, rowspan: nat, colspan: nat, content: string, attributes: seq<Attr>): Layout
  {
    Layout(
      seq(|b.grid|, (r: int) requires 0 <= r < |b.grid| =>
        seq(|b.grid[r]|, (c: int) requires 0 <= c < |b.grid[r]| => StampedSlot(b, r, c, a, rowspan, colspan, content))),
      if rowspan > 1 || colspan > 1 then b.merged[a := MergedCell(rowspan, colspan, content, attributes)] else b.merged,
      if attributes == [] then b.cellAttrs else b.cellAttrs[a := attributes],
      b.occupied + Footprint(a, rowspan, colspan))
  }

  /** `Placement` describes exactly one state, and `AfterPlace` is that state. */
  lemma PlacementIsAfterPlace(b: Layout, b': Layout, a: Pos, rowspan: nat, colspan: nat, content: string, attributes: seq<Attr>)
    requires Placement(b, b', a, rowspan, colspan, content, attributes)
    ensures b' == AfterPlace(b, a, rowspan, colspan, content, attributes)
  {
    var s := AfterPlace(b, a, rowspan, colspan, content, attributes);
    forall r | 0 <= r < |b.grid| ensures b'.grid[r] == s.grid[r] {
      forall c | 0 <= c < |b.grid[r]| ensures b'.grid[r][c] == s.grid[r][c] {
        assert s.grid[r][c] == StampedSlot(b, r, c, a, rowspan, colspan, content);
      }
    }
    assert b'.grid == s.grid;
    assert b'.occupied == s.occupied;
  }

  /** The part of a footprint the marking loops have covered when they reach (i, j). */
  predicate Marked(p: Pos, a: Pos, i: nat, j: nat, colspan: nat)
  {
    p != a && (InSpan(p, a, i, colspan) || (p.0 == a.0 + i && a.1 <= p.1 < a.1 + j))
  }

  /**
    The marking loops' state at (i, j): the grid keeps its shape, holds `content` at the
    anchor, `Some("")` on the marked part of the footprint and the old slots
    elsewhere, and the covered positions grew by the marked part.
  */
  ghost predicate Stamped(b: Layout, grid: Grid, occupied: set<Pos>, a: Pos, content: string, i: nat, j: nat, colspan: nat)
  {
    && |grid| == |b.grid| && (forall r :: 0 <= r < |b.grid| ==> |grid[r]| == |b.grid[r]|)
    && (forall r, c :: 0 <= r < |b.grid| && 0 <= c < |b.grid[r]| ==>
          grid[r][c] == if (r, c) == a then Some(content)
                        else if Marked((r, c), a, i, j, colspan) then Some("")
                        else b.grid[r][c])
    && (forall p :: p in occupied <==> p in b.occupied || Marked(p, a, i, j, colspan))
  }

  /** Marking slot (a.0 + i, a.1 + j), other than the anchor, moves the state to (i, j + 1). */
  lemma MarkStep(b: Layout, grid: Grid, occupied: set<Pos>, a: Pos, content: string, i: nat, j: nat, colspan: nat)
    requires a.0 + i < |b.grid| && a.1 + j < |b.grid[a.0 + i]| && j < colspan && (i != 0 || j != 0)
    requires Stamped(b, grid, occupied, a, content, i, j, colspan)
    ensures Stamped(b, grid[a.0 + i := grid[a.0 + i][a.1 + j := Some("")]], occupied + {(a.0 + i, a.1 + j)},
                    a, content, i, j + 1, colspan)
  {
    var g := grid[a.0 + i := grid[a.0 + i][a.1 + j := Some("")]];
    forall r, c | 0 <= r < |b.grid| && 0 <= c < |b.grid[r]|
      ensures g[r][c] == if (r, c) == a then Some(content)
                         else if Marked((r, c), a, i, j + 1, colspan) then Some("")
                         else b.grid[r][c]
    {
      if (r, c) != (a.0 + i, a.1 + j) {
        assert g[r][c] == grid[r][c];
      }
    }
  }

  /** Marks row `a.0 + i` of the footprint, columns `a.1` to `a.1 + colspan - 1`. */
  method MarkRow(ghost b: Layout, grid: Grid, occupied: set<Pos>, a: Pos, content: string, i: nat, colspan: nat)
    returns (grid': Grid, occupied': set<Pos>)
    requires a.0 + i < |b.grid| && a.1 + colspan <= |b.grid[a.0 + i]|
    requires Stamped(b, grid, occupied, a, content, i, 0, colspan)
    ensures Stamped(b, grid', occupied', a, content, i + 1, 0, colspan)
  {
    grid', occupied' := grid, occupied;
    for j := 0 to colspan
      invariant Stamped(b, grid', occupied', a, content, i, j, colspan)
    {
      if i != 0 || j != 0 {
        MarkStep(b, grid', occupied', a, content, i, j, colspan);
        grid' := grid'[a.0 + i := grid'[a.0 + i][a.1 + j := Some("")]];
        occupied' := occupied' + {(a.0 + i, a.1 + j)};
      } else {
        assert forall p :: Marked(p, a, 0, 1, colspan) == Marked(p, a, 0, 0, colspan);
      }
    }
    assert forall p :: Marked(p, a, i, colspan, colspan) == Marked(p, a, i + 1, 0, colspan);
  }

  /** Writes one cell at anchor `a` of a grid already grown to hold its footprint. */
  method Place(b: Layout, a: Pos, rowspan: nat, colspan: nat, content: string, attributes: seq<Attr>)
    returns (b': Layout)
    requires rowspan >= 1 && colspan >= 1
    requires a.0 + rowspan <= |b.grid|
    requires forall r :: a.0 <= r < a.0 + rowspan ==> a.1 + colspan <= |b.grid[r]|
    ensures b' == AfterPlace(b, a, rowspan, colspan, content, attributes)
  {
    var grid := b.grid;
    grid := grid[a.0 := grid[a.0][a.1 := Some(content)]];
    var cellAttrs := b.cellAttrs;
    if attributes != [] {
      cellAttrs := cellAttrs[a := attributes];
    }
    var merged := b.merged;
    if rowspan > 1 || colspan > 1 {
      merged := merged[a := MergedCell(rowspan, colspan, content, attributes)];
    }
    var occupied := b.occupied;
    for i := 0 to rowspan
      invariant Stamped(b, grid, occupied, a, content, i, 0, colspan)
    {
      grid, occupied := MarkRow(b, grid, occupied, a, content, i, colspan);
    }
    b' := Layout(grid, merged, cellAttrs, occupied);
    PlacementIsAfterPlace(b, b', a, rowspan, colspan, content, attributes);
  }

  // ---------------------------------------------------------------- what a cell brings

  /** What lines 60-76 read off a cell before placing it. */
  datatype CellInfo = CellInfo(rowspan: nat, colspan: nat, content: string, attributes: seq<Attr>)

  /** The cell's spans, its trimmed text and its attributes other than the spans. */
  function Info(cell: Cell): CellInfo
  {
    CellInfo(RowSpan(cell), ColSpan(cell), Trim(cell.text), OtherAttrs(cell.attrs))
  }

  /** `Info` of every cell of a row, in order. */
  function InfoRow(row: Row): (infos: seq<CellInfo>)
    ensures |infos| == |row|
  {
    seq(|row|, (k: int) requires 0 <= k < |row| => Info(row[k]))
  }

  /** `Info` of every cell of every row. */
  function Infos(rows: seq<Row>): (infos: seq<seq<CellInfo>>)
    ensures |infos| == |rows|
  {
    seq(|rows|, (i: int) requires 0 <= i < |rows| => InfoRow(rows[i]))
  }

  /** Both spans of every cell are at least one. */
  ghost predicate InfoSpansPositive(infos: seq<seq<CellInfo>>)
  {
    forall i, j :: 0 <= i < |infos| && 0 <= j < |infos[i]| ==> infos[i][j].rowspan >= 1 && infos[i][j].colspan >= 1
  }

  /** The spans read off the cells are those of `SpansPositive`. */
  lemma InfosSpans(rows: seq<Row>)
    requires SpansPositive(rows)
    ensures InfoSpansPositive(Infos(rows))
  {
    forall i, j | 0 <= i < |rows| && 0 <= j < |rows[i]|
      ensures Infos(rows)[i][j].rowspan >= 1 && Infos(rows)[i][j].colspan >= 1
    {
      assert Infos(rows)[i][j] == Info(rows[i][j]);
    }
  }

  // ---------------------------------------------------------------- the whole table

  /** Every covered position lies in the grid and holds the placeholder `Some("")`. */
  ghost predicate OccupiedFilled(b: Layout)
  {
    forall p :: p in b.occupied ==> InGrid(b.grid, p) && b.grid[p.0][p.1] == Some("")
  }

  /** Every position of the footprint anchored at `a`, other than `a`, is covered. */
  ghost predicate Covered(b: Layout, a: Pos, rowspan: nat, colspan: nat)
  {
    forall p :: InSpan(p, a, rowspan, colspan) && p != a ==> p in b.occupied
  }

  /**
    What the builder leaves behind for one cell anchored at `p`: its trimmed text at
    the anchor, which no span covers; a spanning record exactly when it spans, with its
    spans, text and non-span attributes; an attribute list exactly when it has non-span
    attributes; and the rest of its footprint covered.
  */
  ghost predicate Placed(b: Layout, p: Pos, info: CellInfo)
  {
    && InGrid(b.grid, p)
    && b.grid[p.0][p.1] == Some(info.content)
    && p !in b.occupied
    && (p in b.merged <==> info.rowspan > 1 || info.colspan > 1)
    && (p in b.merged ==> b.merged[p] == MergedCell(info.rowspan, info.colspan, info.content, info.attributes))
    && (p in b.cellAttrs <==> info.attributes != [])
    && (p in b.cellAttrs ==> b.cellAttrs[p] == info.attributes)
    && Covered(b, p, info.rowspan, info.colspan)
  }

  /** `p` is the anchor of some cell of row `p.0`. */
  ghost predicate IsAnchor(anchors: seq<seq<Pos>>, p: Pos)
  {
    p.0 < |anchors| && p in anchors[p.0]
  }

  /** The cells of the first `|anchors|` rows sit at their recorded anchors. */
  ghost predicate RowsPlaced(b: Layout, infos: seq<seq<CellInfo>>, anchors: seq<seq<Pos>>)
    requires |anchors| <= |infos|
  {
    && (forall i :: 0 <= i < |anchors| ==> |anchors[i]| == |infos[i]|)
    && (forall i, j :: 0 <= i < |anchors| && 0 <= j < |anchors[i]| ==>
          anchors[i][j].0 == i && Placed(b, anchors[i][j], infos[i][j]))
    && (forall i, j, j' :: 0 <= i < |anchors| && 0 <= j < j' < |anchors[i]| ==>
          anchors[i][j].1 < anchors[i][j'].1)
  }

  lemma PlacedExtends(b: Layout, g: Grid, p: Pos, info: CellInfo)
    requires Placed(b, p, info) && Extends(b.grid, g)
    ensures Placed(b.(grid := g), p, info)
  {
    assert g[p.0][..|b.grid[p.0]|][p.1] == g[p.0][p.1];
  }

  lemma OccupiedExtends(b: Layout, g: Grid)
    requires OccupiedFilled(b) && Extends(b.grid, g)
    ensures OccupiedFilled(b.(grid := g))
  {
    forall p | p in b.occupied
      ensures InGrid(g, p) && g[p.0][p.1] == Some("")
    {
      assert g[p.0][..|b.grid[p.0]|][p.1] == g[p.0][p.1];
    }
  }

  /** Placing a cell at `a` leaves a cell anchored before the cursor where it was. */
  lemma PlacedAfterPlace(b: Layout, b': Layout, a: Pos, rowspan: nat, colspan: nat, content: string,
                         attributes: seq<Attr>, p: Pos, info: CellInfo)
    requires Placement(b, b', a, rowspan, colspan, content, attributes)
    requires Placed(b, p, info)
    requires p.0 < a.0 || (p.0 == a.0 && p.1 < a.1)
    ensures Placed(b', p, info)
  {
    assert b'.grid[p.0][p.1] == b.grid[p.0][p.1];
  }

  /** The cell just placed at `a`, on a `None` slot the spans did not cover, is placed. */
  lemma NewCellPlaced(b: Layout, b': Layout, a: Pos, info: CellInfo)
    requires InGrid(b.grid, a) && b.grid[a.0][a.1] == None
    requires OccupiedFilled(b) && a !in b.merged && a !in b.cellAttrs
    requires Placement(b, b', a, info.rowspan, info.colspan, info.content, info.attributes)
    ensures Placed(b', a, info)
  {
  }

  lemma OccupiedAfterPlace(b: Layout, b': Layout, a: Pos, rowspan: nat, colspan: nat, content: string,
                           attributes: seq<Attr>)
    requires Placement(b, b', a, rowspan, colspan, content, attributes)
    requires OccupiedFilled(b) && InGrid(b.grid, a) && b.grid[a.0][a.1] == None
    requires forall r :: a.0 <= r < a.0 + rowspan ==> r < |b.grid| && a.1 + colspan <= |b.grid[r]|
    ensures OccupiedFilled(b')
  {
    forall p | p in b'.occupied
      ensures InGrid(b'.grid, p) && b'.grid[p.0][p.1] == Some("")
    {
      if p in b.occupied {
        assert p != a;
      } else {
        assert InSpan(p, a, rowspan, colspan);
      }
    }
  }

  /**
    The cells `cur` placed so far in row `ri`: each in that row, left of the cursor
    `ci`, in increasing columns, and placed as `Placed` says.
  */
  ghost predicate CurPlaced(b: Layout, row: seq<CellInfo>, ri: nat, cur: seq<Pos>, ci: nat)
  {
    && |cur| <= |row|
    && (forall j :: 0 <= j < |cur| ==> cur[j].0 == ri && cur[j].1 < ci && Placed(b, cur[j], row[j]))
    && (forall j, j' :: 0 <= j < j' < |cur| ==> cur[j].1 < cur[j'].1)
  }

  /** Records and attribute lists exist only at anchors of finished rows or of `cur`. */
  ghost predicate KeysAnchored(b: Layout, anchors: seq<seq<Pos>>, cur: seq<Pos>)
  {
    && (forall p :: p in b.merged ==> IsAnchor(anchors, p) || p in cur)
    && (forall p :: p in b.cellAttrs ==> IsAnchor(anchors, p) || p in cur)
  }

  /** Every filled slot is covered, or is the anchor of a cell of a finished row or of `cur`. */
  ghost predicate FilledAccounted(b: Layout, anchors: seq<seq<Pos>>, cur: seq<Pos>)
  {
    forall r, c :: 0 <= r < |b.grid| && 0 <= c < |b.grid[r]| && b.grid[r][c].Some? ==>
      (r, c) in b.occupied || IsAnchor(anchors, (r, c)) || (r, c) in cur
  }

  /** Every filled slot of `g` lies inside `grid`: `g` adds only `None` slots. */
  ghost predicate OnlyNoneAdded(grid: Grid, g: Grid)
  {
    forall r, c :: 0 <= r < |g| && 0 <= c < |g[r]| && g[r][c].Some? ==> InGrid(grid, (r, c))
  }

  /**
    The builder's invariant in row `ri` once the cells `cur` of that row have been
    placed and the cursor has reached column `ci`: earlier rows are placed, the cells
    of this row so far sit left of the cursor in increasing columns, the records belong
    to these anchors only, and every filled slot is covered or one of these anchors.
  */
  ghost predicate Progress(b: Layout, infos: seq<seq<CellInfo>>, anchors: seq<seq<Pos>>, ri: nat, cur: seq<Pos>, ci: nat)
  {
    && |anchors| == ri < |infos|
    && |b.grid| > ri && NonIncreasing(b.grid) && OccupiedFilled(b)
    && RowsPlaced(b, infos, anchors)
    && CurPlaced(b, infos[ri], ri, cur, ci)
    && KeysAnchored(b, anchors, cur)
    && FilledAccounted(b, anchors, cur)
  }

  lemma FilledExtends(b: Layout, g: Grid, anchors: seq<seq<Pos>>, cur: seq<Pos>)
    requires FilledAccounted(b, anchors, cur) && Extends(b.grid, g) && OnlyNoneAdded(b.grid, g)
    ensures FilledAccounted(b.(grid := g), anchors, cur)
  {
    forall r, c | 0 <= r < |g| && 0 <= c < |g[r]| && g[r][c].Some?
      ensures (r, c) in b.occupied || IsAnchor(anchors, (r, c)) || (r, c) in cur
    {
      assert InGrid(b.grid, (r, c));
      assert g[r][..|b.grid[r]|][c] == g[r][c];
    }
  }

  lemma RowsExtends(b: Layout, g: Grid, infos: seq<seq<CellInfo>>, anchors: seq<seq<Pos>>)
    requires |anchors| <= |infos| && RowsPlaced(b, infos, anchors) && Extends(b.grid, g)
    ensures RowsPlaced(b.(grid := g), infos, anchors)
  {
    forall i, j | 0 <= i < |anchors| && 0 <= j < |anchors[i]|
      ensures Placed(b.(grid := g), anchors[i][j], infos[i][j])
    {
      PlacedExtends(b, g, anchors[i][j], infos[i][j]);
    }
  }

  lemma CurExtends(b: Layout, g: Grid, row: seq<CellInfo>, ri: nat, cur: seq<Pos>, ci: nat)
    requires CurPlaced(b, row, ri, cur, ci) && Extends(b.grid, g)
    ensures CurPlaced(b.(grid := g), row, ri, cur, ci)
  {
    forall j | 0 <= j < |cur|
      ensures Placed(b.(grid := g), cur[j], row[j])
    {
      PlacedExtends(b, g, cur[j], row[j]);
    }
  }

  lemma ProgressExtends(b: Layout, g: Grid, infos: seq<seq<CellInfo>>, anchors: seq<seq<Pos>>, ri: nat, cur: seq<Pos>, ci: nat)
    requires Progress(b, infos, anchors, ri, cur, ci)
    requires Extends(b.grid, g) && NonIncreasing(g) && OnlyNoneAdded(b.grid, g)
    ensures Progress(b.(grid := g), infos, anchors, ri, cur, ci)
  {
    OccupiedExtends(b, g);
    RowsExtends(b, g, infos, anchors);
    CurExtends(b, g, infos[ri], ri, cur, ci);
    FilledExtends(b, g, anchors, cur);
  }

  lemma RowsAfterPlace(b: Layout, b': Layout, a: Pos, rowspan: nat, colspan: nat, content: string,
                        attributes: seq<Attr>, infos: seq<seq<CellInfo>>, anchors: seq<seq<Pos>>)
    requires |anchors| <= |infos| && |anchors| == a.0
    requires RowsPlaced(b, infos, anchors)
    requires Placement(b, b', a, rowspan, colspan, content, attributes)
    ensures RowsPlaced(b', infos, anchors)
  {
    forall i, j | 0 <= i < |anchors| && 0 <= j < |anchors[i]|
      ensures Placed(b', anchors[i][j], infos[i][j])
    {
      PlacedAfterPlace(b, b', a, rowspan, colspan, content, attributes, anchors[i][j], infos[i][j]);
    }
  }

  lemma OrderAfterAppend(cur: seq<Pos>, a: Pos)
    requires forall j :: 0 <= j < |cur| ==> cur[j].1 < a.1
    requires forall j, j' :: 0 <= j < j' < |cur| ==> cur[j].1 < cur[j'].1
    ensures forall j, j' :: 0 <= j < j' < |cur + [a]| ==> (cur + [a])[j].1 < (cur + [a])[j'].1
  {
    var cur' := cur + [a];
    forall j, j' | 0 <= j < j' < |cur'|
      ensures cur'[j].1 < cur'[j'].1
    {
      if j' < |cur| {
        assert cur'[j] == cur[j] && cur'[j'] == cur[j'];
      } else {
        assert cur'[j] == cur[j] && cur'[j'] == a;
      }
    }
  }

  /** The cell placed at the cursor joins the cells of the row, and the cursor moves past it. */
  lemma CurAfterPlace(b: Layout, b': Layout, a: Pos, rowspan: nat, colspan: nat, content: string,
                      attributes: seq<Attr>, row: seq<CellInfo>, cur: seq<Pos>)
    requires CurPlaced(b, row, a.0, cur, a.1) && |cur| < |row| && colspan >= 1
    requires Placement(b, b', a, rowspan, colspan, content, attributes)
    requires Placed(b', a, row[|cur|])
    ensures CurPlaced(b', row, a.0, cur + [a], a.1 + colspan)
  {
    forall j | 0 <= j < |cur|
      ensures Placed(b', cur[j], row[j])
    {
      PlacedAfterPlace(b, b', a, rowspan, colspan, content, attributes, cur[j], row[j]);
    }
    OrderAfterAppend(cur, a);
    var cur' := cur + [a];
    assert forall j :: 0 <= j < |cur| ==> cur'[j] == cur[j];
    assert cur'[|cur|] == a;
  }

  lemma KeysAfterPlace(b: Layout, b': Layout, a: Pos, rowspan: nat, colspan: nat, content: string,
                       attributes: seq<Attr>, anchors: seq<seq<Pos>>, cur: seq<Pos>)
    requires KeysAnchored(b, anchors, cur)
    requires Placement(b, b', a, rowspan, colspan, content, attributes)
    ensures KeysAnchored(b', anchors, cur + [a])
  {
  }

  /** The slots a placement fills are the new anchor and covered positions. */
  lemma FilledAfterPlace(b: Layout, b': Layout, a: Pos, rowspan: nat, colspan: nat, content: string,
                         attributes: seq<Attr>, anchors: seq<seq<Pos>>, cur: seq<Pos>)
    requires FilledAccounted(b, anchors, cur)
    requires Placement(b, b', a, rowspan, colspan, content, attributes)
    ensures FilledAccounted(b', anchors, cur + [a])
  {
    forall r, c | 0 <= r < |b'.grid| && 0 <= c < |b'.grid[r]| && b'.grid[r][c].Some?
      ensures (r, c) in b'.occupied || IsAnchor(anchors, (r, c)) || (r, c) in cur + [a]
    {
      if (r, c) == a {
        assert (cur + [a])[|cur|] == a;
      } else if !InSpan((r, c), a, rowspan, colspan) {
        assert b'.grid[r][c] == b.grid[r][c];
      }
    }
  }

  lemma ShapeAfterPlace(b: Layout, b': Layout, a: Pos, rowspan: nat, colspan: nat, content: string, attributes: seq<Attr>)
    requires NonIncreasing(b.grid)
    requires Placement(b, b', a, rowspan, colspan, content, attributes)
    ensures NonIncreasing(b'.grid)
  {
    forall r, r' | 0 <= r < r' < |b'.grid| ensures |b'.grid[r]| >= |b'.grid[r']| {
      assert |b.grid[r]| >= |b.grid[r']|;
    }
  }

  /** Placing the next cell of row `ri` at the cursor `ci`, on a `None` slot, keeps the invariant. */
  lemma ProgressPlace(b: Layout, b': Layout, a: Pos, ci': nat, infos: seq<seq<CellInfo>>, anchors: seq<seq<Pos>>, ri: nat, cur: seq<Pos>, ci: nat)
    requires Progress(b, infos, anchors, ri, cur, ci) && |cur| < |infos[ri]| && a == (ri, ci)
    requires infos[ri][|cur|].rowspan >= 1 && infos[ri][|cur|].colspan >= 1
    requires Room(b.grid, (ri, ci), infos[ri][|cur|].rowspan, infos[ri][|cur|].colspan)
    requires Placement(b, b', (ri, ci), infos[ri][|cur|].rowspan, infos[ri][|cur|].colspan,
                       infos[ri][|cur|].content, infos[ri][|cur|].attributes)
    requires ci' == ci + infos[ri][|cur|].colspan
    ensures Progress(b', infos, anchors, ri, cur + [a], ci')
  {
    var info := infos[ri][|cur|];
    var rowspan, colspan, content, attributes := info.rowspan, info.colspan, info.content, info.attributes;
    assert a !in b.merged && a !in b.cellAttrs;
    OccupiedAfterPlace(b, b', a, rowspan, colspan, content, attributes);
    NewCellPlaced(b, b', a, info);
    RowsAfterPlace(b, b', a, rowspan, colspan, content, attributes, infos, anchors);
    CurAfterPlace(b, b', a, rowspan, colspan, content, attributes, infos[ri], cur);
    KeysAfterPlace(b, b', a, rowspan, colspan, content, attributes, anchors, cur);
    FilledAfterPlace(b, b', a, rowspan, colspan, content, attributes, anchors, cur);
    ShapeAfterPlace(b, b', a, rowspan, colspan, content, attributes);
  }

  /** Moving the cursor to the right keeps the invariant. */
  lemma ProgressAdvance(b: Layout, infos: seq<seq<CellInfo>>, anchors: seq<seq<Pos>>, ri: nat, cur: seq<Pos>, ci: nat, ci': nat)
    requires Progress(b, infos, anchors, ri, cur, ci) && ci <= ci'
    ensures Progress(b, infos, anchors, ri, cur, ci')
  {
  }

  /** The invariant at the start of row `ri`, once the grid has a row `ri`. */
  lemma ProgressStart(b: Layout, infos: seq<seq<CellInfo>>, anchors: seq<seq<Pos>>, ri: nat)
    requires |anchors| == ri < |infos| && |b.grid| > ri && NonIncreasing(b.grid) && OccupiedFilled(b)
    requires RowsPlaced(b, infos, anchors) && KeysAnchored(b, anchors, []) && FilledAccounted(b, anchors, [])
    ensures Progress(b, infos, anchors, ri, [], 0)
  {
  }

  /** Appending an empty grid row keeps everything placed so far. */
  lemma RowsAppendRow(b: Layout, infos: seq<seq<CellInfo>>, anchors: seq<seq<Pos>>)
    requires |anchors| <= |infos| && NonIncreasing(b.grid) && OccupiedFilled(b)
    requires RowsPlaced(b, infos, anchors) && FilledAccounted(b, anchors, [])
    ensures NonIncreasing(b.grid + [[]]) && OccupiedFilled(b.(grid := b.grid + [[]]))
    ensures RowsPlaced(b.(grid := b.grid + [[]]), infos, anchors)
    ensures FilledAccounted(b.(grid := b.grid + [[]]), anchors, [])
  {
    var g := b.grid + [[]];
    assert Extends(b.grid, g) by {
      forall r | 0 <= r < |b.grid| ensures g[r] == b.grid[r] { }
    }
    assert OnlyNoneAdded(b.grid, g) by {
      forall r, c | 0 <= r < |g| && 0 <= c < |g[r]| && g[r][c].Some? ensures InGrid(b.grid, (r, c)) {
        assert r < |b.grid| && g[r] == b.grid[r];
      }
    }
    OccupiedExtends(b, g);
    RowsExtends(b, g, infos, anchors);
    FilledExtends(b, g, anchors, []);
  }

  lemma KeysDone(b: Layout, anchors: seq<seq<Pos>>, ri: nat, cur: seq<Pos>)
    requires |anchors| == ri && KeysAnchored(b, anchors, cur)
    requires forall j :: 0 <= j < |cur| ==> cur[j].0 == ri
    ensures KeysAnchored(b, anchors + [cur], [])
    ensures FilledAccounted(b, anchors, cur) ==> FilledAccounted(b, anchors + [cur], [])
  {
    var an := anchors + [cur];
    assert an[ri] == cur;
    assert forall i :: 0 <= i < ri ==> an[i] == anchors[i];
  }

  /** A finished row's anchors join the finished rows. */
  lemma RowsDone(b: Layout, infos: seq<seq<CellInfo>>, anchors: seq<seq<Pos>>, ri: nat, cur: seq<Pos>, ci: nat)
    requires |anchors| == ri < |infos| && RowsPlaced(b, infos, anchors)
    requires CurPlaced(b, infos[ri], ri, cur, ci) && |cur| == |infos[ri]|
    ensures |anchors + [cur]| <= |infos| && RowsPlaced(b, infos, anchors + [cur])
  {
    var an := anchors + [cur];
    forall i | 0 <= i < |an| ensures an[i] == if i < ri then anchors[i] else cur { }
  }

  /** Once every cell of row `ri` is placed, the row's anchors join the finished rows. */
  lemma ProgressDone(b: Layout, infos: seq<seq<CellInfo>>, anchors: seq<seq<Pos>>, ri: nat, cur: seq<Pos>, ci: nat)
    requires Progress(b, infos, anchors, ri, cur, ci) && |cur| == |infos[ri]|
    ensures RowsBuilt(b, infos, anchors + [cur])
  {
    RowsDone(b, infos, anchors, ri, cur, ci);
    KeysDone(b, anchors, ri, cur);
  }

  // ---------------------------------------------------------------- the builder as functions

  /**
    One cell of row `ri` placed with the cursor at `ci`: it is anchored at the first
    free slot at or after the cursor, the grid grows to hold its footprint, and the
    cell is placed there. The result is the new state, the anchor, and the cursor
    moved past the cell's colspan.
  */
  function PlacedNext(b: Layout, ri: nat, info: CellInfo, ci: nat): (res: (Layout, Pos, nat))
    requires ri < |b.grid|
    ensures |res.0.grid| >= |b.grid|
  {
    PlacedAt(b, ri, info, FirstFree(b.grid[ri], ci))
  }

  /** The cell anchored at (ri, c), after the grid has grown for its footprint there. */
  function PlacedAt(b: Layout, ri: nat, info: CellInfo, c: nat): (res: (Layout, Pos, nat))
    ensures |res.0.grid| >= |b.grid|
  {
    (AfterPlace(b.(grid := Grown(b.grid, ri + info.rowspan, c + info.colspan)), (ri, c),
                info.rowspan, info.colspan, info.content, info.attributes),
     (ri, c),
     c + info.colspan)
  }

  /**
    The builder from cell `k` of row `ri` on, with the cursor at `ci`: each cell is
    placed as `PlacedNext` says and the cursor moves on by its colspan. `placed`
    collects the anchors.
  */
  function PlacedCells(b: Layout, row: seq<CellInfo>, ri: nat, k: nat, ci: nat, placed: seq<Pos>): (res: (Layout, seq<Pos>))
    requires ri < |b.grid| && k <= |row|
    ensures |res.0.grid| >= |b.grid|
    decreases |row| - k
  {
    if k == |row| then (b, placed)
    else
      var next := PlacedNext(b, ri, row[k], ci);
      PlacedCells(next.0, row, ri, k + 1, next.2, placed + [next.1])
  }

  /**
    Row `ri` processed: a grid row appended if the grid does not reach it yet, the
    cursor moved to the row's first free slot, then every cell placed.
  */
  function ProcessedRow(b: Layout, row: Row, ri: nat): (res: (Layout, seq<Pos>))
    requires ri <= |b.grid|
    ensures |res.0.grid| > ri && |res.0.grid| >= |b.grid|
  {
    var b0 := if ri >= |b.grid| then b.(grid := b.grid + [[]]) else b;
    PlacedCells(b0, InfoRow(row), ri, 0, FirstFree(b0.grid[ri], 0), [])
  }

  /** Rows `ri` onwards processed in order; `anchors` collects each row's anchors. */
  function ProcessedRows(b: Layout, rows: seq<Row>, ri: nat, anchors: seq<seq<Pos>>): (Layout, seq<seq<Pos>>)
    requires ri <= |rows| && ri <= |b.grid|
    decreases |rows| - ri
  {
    if ri == |rows| then (b, anchors)
    else
      var next := ProcessedRow(b, rows[ri], ri);
      ProcessedRows(next.0, rows, ri + 1, anchors + [next.1])
  }

  /** What the builder computes for `rows`: the layout, and for each cell its anchor. */
  function Built(rows: seq<Row>): (Layout, seq<seq<Pos>>)
  {
    ProcessedRows(Layout([], map[], map[], {}), rows, 0, [])
  }

  /** `AfterPlace` satisfies `Placement`. */
  lemma AfterPlaceIsPlacement(b: Layout, a: Pos, rowspan: nat, colspan: nat, content: string, attributes: seq<Attr>)
    ensures Placement(b, AfterPlace(b, a, rowspan, colspan, content, attributes), a, rowspan, colspan, content, attributes)
  {
    var s := AfterPlace(b, a, rowspan, colspan, content, attributes);
    forall r, c | 0 <= r < |b.grid| && 0 <= c < |b.grid[r]|
      ensures s.grid[r][c] == StampedSlot(b, r, c, a, rowspan, colspan, content)
    {
    }
  }

  /** The slot `a` is in the grid and free, and the grid holds the footprint of a cell of `rowspan` by `colspan` slots anchored there. */
  ghost predicate Room(g: Grid, a: Pos, rowspan: nat, colspan: nat)
  {
    InGrid(g, a) && g[a.0][a.1] == None
    && forall r :: a.0 <= r < a.0 + rowspan ==> r < |g| && a.1 + colspan <= |g[r]|
  }

  /**
    In the room made for it, a cell's footprint leaves out its anchor and lies inside
    the grid: every position lines 113-123 write a placeholder to exists.
  */
  lemma FootprintInRoom(g: Grid, a: Pos, rowspan: nat, colspan: nat)
    requires Room(g, a, rowspan, colspan)
    ensures a !in Footprint(a, rowspan, colspan)
    ensures forall p :: p in Footprint(a, rowspan, colspan) ==> InGrid(g, p) && p.0 < a.0 + rowspan && p.1 < a.1 + colspan
  {
    forall p | p in Footprint(a, rowspan, colspan) ensures InGrid(g, p) {
      assert a.0 <= p.0 < a.0 + rowspan && p.1 < a.1 + colspan;
      var r := p.0;
      assert a.0 <= r < a.0 + rowspan;
      assert r < |g| && a.1 + colspan <= |g[r]|;
    }
  }

  /** Growing for a cell at (ri, c) makes room for its footprint. */
  lemma GrownRoom(grid: Grid, g: Grid, ri: nat, c: nat, rowspan: nat, colspan: nat)
    requires ri < |grid| && g == Grown(grid, ri + rowspan, c + colspan) && rowspan >= 1 && colspan >= 1
    requires c < |grid[ri]| ==> grid[ri][c].None?
    ensures Room(g, (ri, c), rowspan, colspan)
  {
    assert g[ri] == Padded(grid[ri], c + colspan);
    forall r | ri <= r < ri + rowspan ensures r < |g| && c + colspan <= |g[r]| {
      assert g[r] == Padded(RowOf(grid, r), c + colspan);
    }
  }

  /** Growing the grid keeps the invariant. */
  lemma ProgressGrown(b: Layout, g: Grid, infos: seq<seq<CellInfo>>, anchors: seq<seq<Pos>>, ri: nat, cur: seq<Pos>, c: nat, neededRows: nat, neededCols: nat)
    requires Progress(b, infos, anchors, ri, cur, c) && g == Grown(b.grid, neededRows, neededCols)
    ensures Progress(b.(grid := g), infos, anchors, ri, cur, c)
  {
    GrownExtends(b.grid, neededRows, neededCols);
    ProgressExtends(b, g, infos, anchors, ri, cur, c);
  }

  /** Placing cell `|cur|` of row `ri` at the free slot (ri, c) keeps the invariant. */
  lemma ProgressAt(b: Layout, b1: Layout, b': Layout, a: Pos, ci': nat, infos: seq<seq<CellInfo>>, anchors: seq<seq<Pos>>, ri: nat, cur: seq<Pos>, c: nat, info: CellInfo)
    requires Progress(b, infos, anchors, ri, cur, c) && |cur| < |infos[ri]| && info == infos[ri][|cur|]
    requires info.rowspan >= 1 && info.colspan >= 1
    requires c < |b.grid[ri]| ==> b.grid[ri][c].None?
    requires b1 == b.(grid := Grown(b.grid, ri + info.rowspan, c + info.colspan))
    requires b' == AfterPlace(b1, (ri, c), info.rowspan, info.colspan, info.content, info.attributes)
    requires a == (ri, c) && ci' == c + info.colspan
    ensures Progress(b', infos, anchors, ri, cur + [a], ci')
  {
    ProgressRoom(b, b1, infos, anchors, ri, cur, c, info.rowspan, info.colspan);
    ProgressStamped(b1, b', a, ci', infos, anchors, ri, cur, c);
  }

  /** Growing the grid for a cell of `rowspan` by `colspan` slots at (ri, c) keeps the invariant and makes room. */
  lemma ProgressRoom(b: Layout, b1: Layout, infos: seq<seq<CellInfo>>, anchors: seq<seq<Pos>>, ri: nat, cur: seq<Pos>, c: nat, rowspan: nat, colspan: nat)
    requires Progress(b, infos, anchors, ri, cur, c) && rowspan >= 1 && colspan >= 1
    requires c < |b.grid[ri]| ==> b.grid[ri][c].None?
    requires b1 == b.(grid := Grown(b.grid, ri + rowspan, c + colspan))
    ensures Progress(b1, infos, anchors, ri, cur, c)
    ensures Room(b1.grid, (ri, c), rowspan, colspan)
  {
    ProgressGrown(b, b1.grid, infos, anchors, ri, cur, c, ri + rowspan, c + colspan);
    GrownRoom(b.grid, b1.grid, ri, c, rowspan, colspan);
  }

  /** Writing cell `|cur|` of row `ri` into the room made for it at (ri, c) keeps the invariant. */
  lemma ProgressStamped(b1: Layout, b': Layout, a: Pos, ci': nat, infos: seq<seq<CellInfo>>, anchors: seq<seq<Pos>>, ri: nat, cur: seq<Pos>, c: nat)
    requires Progress(b1, infos, anchors, ri, cur, c) && |cur| < |infos[ri]| && a == (ri, c)
    requires infos[ri][|cur|].rowspan >= 1 && infos[ri][|cur|].colspan >= 1
    requires Room(b1.grid, (ri, c), infos[ri][|cur|].rowspan, infos[ri][|cur|].colspan)
    requires b' == AfterPlace(b1, (ri, c), infos[ri][|cur|].rowspan, infos[ri][|cur|].colspan,
                              infos[ri][|cur|].content, infos[ri][|cur|].attributes)
    requires ci' == c + infos[ri][|cur|].colspan
    ensures Progress(b', infos, anchors, ri, cur + [a], ci')
  {
    var info := infos[ri][|cur|];
    AfterPlaceIsPlacement(b1, a, info.rowspan, info.colspan, info.content, info.attributes);
    ProgressPlace(b1, b', a, ci', infos, anchors, ri, cur, c);
  }

  /**
    The builder's invariant survives one cell: the cell `k` of row `ri` is placed at
    the first free slot from the cursor `ci` on, and the invariant holds with its
    anchor added and the cursor moved past it.
  */
  lemma ProgressNext(b: Layout, b': Layout, a: Pos, ci': nat, infos: seq<seq<CellInfo>>, anchors: seq<seq<Pos>>, ri: nat, cur: seq<Pos>, k: nat, ci: nat)
    requires Progress(b, infos, anchors, ri, cur, ci) && |cur| == k < |infos[ri]|
    requires infos[ri][k].rowspan >= 1 && infos[ri][k].colspan >= 1
    requires (b', a, ci') == PlacedNext(b, ri, infos[ri][k], ci)
    ensures Progress(b', infos, anchors, ri, cur + [a], ci')
  {
    var info := infos[ri][k];
    var c := FirstFree(b.grid[ri], ci);
    var b1 := b.(grid := Grown(b.grid, ri + info.rowspan, c + info.colspan));
    ProgressAdvance(b, infos, anchors, ri, cur, ci, c);
    ProgressAt(b, b1, b', a, ci', infos, anchors, ri, cur, c, info);
  }

  /**
    Makes room for the next cell of row `ri` (lines 57-92): moves the cursor from `ci`
    to the first free slot of the row and grows the grid for the cell's footprint there.
  */
  method MakeRoom(b: Layout, ri: nat, info: CellInfo, ci: nat) returns (b1: Layout, c: nat)
    requires ri < |b.grid|
    ensures c == FirstFree(b.grid[ri], ci)
    ensures b1 == b.(grid := Grown(b.grid, ri + info.rowspan, c + info.colspan))
  {
    c := SkipFilled(b.grid[ri], ci);
    var g := Grow(b.grid, ri + info.rowspan, c + info.colspan);
    b1 := b.(grid := g);
  }

  /**
    Places the next cell of row `ri` (lines 56-125): anchors it at the first free slot
    from the cursor on, grows the grid, writes it, and returns the new state and the
    anchor and the cursor moved past the cell's colspan, as `PlacedNext` says.
  */
  method PlaceNext(b: Layout, ri: nat, info: CellInfo, ci: nat) returns (b': Layout, a: Pos, ci': nat)
    requires ri < |b.grid| && info.rowspan >= 1 && info.colspan >= 1
    ensures (b', a, ci') == PlacedNext(b, ri, info, ci)
  {
    var b1, c := MakeRoom(b, ri, info, ci);
    a := (ri, c);
    GrownRoom(b.grid, b1.grid, ri, c, info.rowspan, info.colspan);
    b' := Place(b1, a, info.rowspan, info.colspan, info.content, info.attributes);
    ci' := c + info.colspan;
    PlacedNextIs(b, b1, b', ri, info, ci, c);
  }

  lemma PlacedNextIs(b: Layout, b1: Layout, b': Layout, ri: nat, info: CellInfo, ci: nat, c: nat)
    requires ri < |b.grid| && c == FirstFree(b.grid[ri], ci)
    requires b1 == b.(grid := Grown(b.grid, ri + info.rowspan, c + info.colspan))
    requires b' == AfterPlace(b1, (ri, c), info.rowspan, info.colspan, info.content, info.attributes)
    ensures (b', (ri, c), c + info.colspan) == PlacedNext(b, ri, info, ci)
  {
  }

  /**
    The builder's state between rows, once the first `|anchors|` rows are done: a grid
    row for each of them, row lengths that never increase downwards, a placeholder in
    every covered slot; `anchors[i][j]` is where cell `j` of row `i` was anchored, in
    row `i`, at strictly increasing columns along the row, with everything `Placed`
    says; the records refer to these anchors only; and every filled slot is covered or
    one of these anchors.
  */
  ghost predicate RowsBuilt(b: Layout, infos: seq<seq<CellInfo>>, anchors: seq<seq<Pos>>)
  {
    && |anchors| <= |infos| && |b.grid| >= |anchors| && NonIncreasing(b.grid) && OccupiedFilled(b)
    && RowsPlaced(b, infos, anchors)
    && KeysAnchored(b, anchors, [])
    && FilledAccounted(b, anchors, [])
  }

  /** What the builder leaves behind for `rows`: every row built, each cell as `Info` reads it. */
  ghost predicate BuilderOutput(b: Layout, rows: seq<Row>, anchors: seq<seq<Pos>>)
  {
    RowsBuilt(b, Infos(rows), anchors) && |anchors| == |rows|
  }

  /** The loop of lines 56-126 from the cursor `ci` on computes `PlacedCells`. */
  lemma PlacedCellsStep(b: Layout, b': Layout, a: Pos, ci': nat, row: seq<CellInfo>, ri: nat, k: nat, ci: nat, placed: seq<Pos>)
    requires ri < |b.grid| && k < |row| && (b', a, ci') == PlacedNext(b, ri, row[k], ci)
    ensures ri < |b'.grid|
    ensures PlacedCells(b, row, ri, k, ci, placed) == PlacedCells(b', row, ri, k + 1, ci', placed + [a])
  {
  }

  /** One turn of the loop of lines 56-126 keeps both the invariant and what is left for `PlacedCells` to compute. */
  lemma PlaceCellsStep(b0: Layout, b: Layout, b': Layout, a: Pos, ci': nat, infos: seq<seq<CellInfo>>, anchors: seq<seq<Pos>>, ri: nat, cur: seq<Pos>, k: nat, ci: nat, ci0: nat)
    requires Progress(b, infos, anchors, ri, cur, ci) && |cur| == k < |infos[ri]| && ri < |b0.grid|
    requires infos[ri][k].rowspan >= 1 && infos[ri][k].colspan >= 1
    requires (b', a, ci') == PlacedNext(b, ri, infos[ri][k], ci)
    requires PlacedCells(b, infos[ri], ri, k, ci, cur) == PlacedCells(b0, infos[ri], ri, 0, ci0, [])
    ensures Progress(b', infos, anchors, ri, cur + [a], ci')
    ensures PlacedCells(b', infos[ri], ri, k + 1, ci', cur + [a]) == PlacedCells(b0, infos[ri], ri, 0, ci0, [])
  {
    ProgressNext(b, b', a, ci', infos, anchors, ri, cur, k, ci);
    PlacedCellsStep(b, b', a, ci', infos[ri], ri, k, ci, cur);
  }

  /**
    Places the cells of row `ri` in order (lines 56-126): each at the first free slot
    at or after the cursor, which then moves past its colspan. The result is what
    `PlacedCells` computes; the ghost result `cur` holds the anchors, and `ci'` is
    the cursor at the end.
  */
  method PlaceCells(b: Layout, row: Row, ghost infos: seq<seq<CellInfo>>, ghost anchors: seq<seq<Pos>>, ri: nat, ci: nat)
    returns (b': Layout, ghost cur: seq<Pos>, ghost ci': nat)
    requires Progress(b, infos, anchors, ri, [], ci) && infos[ri] == InfoRow(row)
    requires forall k :: 0 <= k < |row| ==> infos[ri][k].rowspan >= 1 && infos[ri][k].colspan >= 1
    ensures (b', cur) == PlacedCells(b, infos[ri], ri, 0, ci, [])
    ensures |cur| == |row| && Progress(b', infos, anchors, ri, cur, ci')
  {
    b', cur, ci' := b, [], ci;
    var c := ci;
    for k := 0 to |row|
      invariant |cur| == k && c == ci' && Progress(b', infos, anchors, ri, cur, c)
      invariant PlacedCells(b', infos[ri], ri, k, c, cur) == PlacedCells(b, infos[ri], ri, 0, ci, [])
    {
      var info := Info(row[k]);
      assert info == infos[ri][k];
      var b2, a, c2 := PlaceNext(b', ri, info, c);
      PlaceCellsStep(b, b', b2, a, c2, infos, anchors, ri, cur, k, c, ci);
      b', cur, c := b2, cur + [a], c2;
      ci' := c;
    }
  }

  /**
    Processes row `ri` (lines 43-126): adds a grid row if needed, moves the cursor to
    the row's first free slot, then places the row's cells. The result is what
    `ProcessedRow` computes, and the ghost result `cur` holds the row's anchors.
  */
  method BuildRow(b: Layout, row: Row, ghost infos: seq<seq<CellInfo>>, ghost anchors: seq<seq<Pos>>, ri: nat)
    returns (b': Layout, ghost cur: seq<Pos>)
    requires RowsBuilt(b, infos, anchors) && |anchors| == ri < |infos| && infos[ri] == InfoRow(row)
    requires forall k :: 0 <= k < |row| ==> infos[ri][k].rowspan >= 1 && infos[ri][k].colspan >= 1
    ensures b' == ProcessedRow(b, row, ri).0 && cur == ProcessedRow(b, row, ri).1
    ensures RowsBuilt(b', infos, anchors + [cur])
  {
    var b0 := b;
    if ri >= |b0.grid| {
      RowsAppendRow(b0, infos, anchors);
      b0 := b0.(grid := b0.grid + [[]]);
    }
    ProgressStart(b0, infos, anchors, ri);
    var ci := SkipFilled(b0.grid[ri], 0);
    ProgressAdvance(b0, infos, anchors, ri, [], 0, ci);
    ghost var ci';
    b', cur, ci' := PlaceCells(b0, row, infos, anchors, ri, ci);
    ProgressDone(b', infos, anchors, ri, cur, ci');
  }

  /**
    The loop over the rows (lines 41-127), with `infos` what each cell brings: the
    result is `Built(rows)`, and every row is built.
  */
  method BuildRows(rows: seq<Row>, ghost infos: seq<seq<CellInfo>>) returns (b: Layout, ghost anchors: seq<seq<Pos>>)
    requires |infos| == |rows| && InfoSpansPositive(infos)
    requires forall i :: 0 <= i < |rows| ==> infos[i] == InfoRow(rows[i])
    ensures b == Built(rows).0 && anchors == Built(rows).1
    ensures RowsBuilt(b, infos, anchors) && |anchors| == |rows|
  {
    b := Layout([], map[], map[], {});
    anchors := [];
    for ri := 0 to |rows|
      invariant |anchors| == ri && RowsBuilt(b, infos, anchors)
      invariant ProcessedRows(b, rows, ri, anchors) == Built(rows)
    {
      ghost var cur;
      b, cur := BuildRow(b, rows[ri], infos, anchors, ri);
      anchors := anchors + [cur];
    }
  }

  /**
    Builds the grid and its side tables from the rows of the table (lines 38-127).
    The result is `Built(rows)`, and it meets `BuilderOutput`. A table without rows
    leaves everything empty.
  */
  method BuildGrid(rows: seq<Row>) returns (b: Layout, ghost anchors: seq<seq<Pos>>)
    requires SpansPositive(rows)
    ensures (b, anchors) == Built(rows)
    ensures BuilderOutput(b, rows, anchors)
    ensures rows == [] ==> b == Layout([], map[], map[], {})
  {
    InfosSpans(rows);
    b, anchors := BuildRows(rows, Infos(rows));
  }
}
