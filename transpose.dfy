/**
  The whole pipeline: build the grid from the first table of the document, transpose
  it with its side tables, and print the result. This module also proves what the
  pipeline promises end to end: the transposed layout satisfies everything the
  renderer's walk relies on, and every input cell appears in the output as one `<td>`
  whose spans are exchanged, at the position its anchor moves to.
*/
module HtmlTranspose {
  import opened Wrappers
  import opened Text
  import opened Table
  import opened GridBuilder
  import opened Transposer
  import opened Renderer

  /** The error the source returns when the document has no `<table>` ("No <table> element found"). */
  datatype Error = NoTableFound

  /**
    The `<td>` an input cell should become in the transposed table: a spanning cell
    keeps its text and non-span attributes with rowspan and colspan exchanged; any
    other cell prints its trimmed text with its non-span attributes.
  */
  function CellMarkup(cell: Cell): string
  {
    if Spanning(cell) then
      SpanMarkup(MergedCell(ColSpan(cell), RowSpan(cell), Trim(cell.text), OtherAttrs(cell.attrs)))
    else
      PlainMarkup(OtherAttrs(cell.attrs), Trim(cell.text))
  }

  // ---------------------------------------------------------------- builder facts

  /** Every recorded anchor is the anchor of some input cell, placed there. */
  lemma AnchorOf(b: Layout, rows: seq<Row>, anchors: seq<seq<Pos>>, p: Pos) returns (i: nat, j: nat)
    requires BuilderOutput(b, rows, anchors) && IsAnchor(anchors, p)
    ensures i < |rows| && j < |rows[i]| && anchors[i][j] == p && Placed(b, p, Info(rows[i][j]))
  {
    i := p.0;
    var k :| 0 <= k < |anchors[i]| && anchors[i][k] == p;
    j := k;
  }

  /**
    A covered position holds the placeholder and is never an anchor, so it has neither
    a record nor an attribute list.
  */
  lemma OccupiedNotAnchor(b: Layout, rows: seq<Row>, anchors: seq<seq<Pos>>, p: Pos)
    requires BuilderOutput(b, rows, anchors) && p in b.occupied
    ensures InGrid(b.grid, p) && b.grid[p.0][p.1] == Some("")
    ensures p !in b.merged && p !in b.cellAttrs
  {
    if p in b.merged || p in b.cellAttrs {
      var i, j := AnchorOf(b, rows, anchors, p);
    }
  }

  /** A slot of the grid lies within the width of row 0. */
  lemma WithinWidth(b: Layout, p: Pos)
    requires NonIncreasing(b.grid) && InGrid(b.grid, p)
    ensures p.1 < Width(b.grid)
  {
    if p.0 > 0 {
      assert |b.grid[0]| >= |b.grid[p.0]|;
    }
  }

  /**
    A spanning record sits at the anchor of an input cell; its rowspan is at least one,
    and every later row of its first column holds a covered placeholder without a
    record.
  */
  lemma RecordFootprint(b: Layout, rows: seq<Row>, anchors: seq<seq<Pos>>, p: Pos)
    requires BuilderOutput(b, rows, anchors) && SpansPositive(rows) && p in b.merged
    ensures b.merged[p].rowspan >= 1
    ensures forall r :: p.0 < r < p.0 + b.merged[p].rowspan ==> FilledCover(b, (r, p.1))
  {
    var i, j := AnchorOf(b, rows, anchors, p);
    var cell := rows[i][j];
    assert Covered(b, p, RowSpan(cell), ColSpan(cell));
    forall r | p.0 < r < p.0 + RowSpan(cell) ensures FilledCover(b, (r, p.1)) {
      assert InSpan((r, p.1), p, RowSpan(cell), ColSpan(cell));
      OccupiedNotAnchor(b, rows, anchors, (r, p.1));
    }
  }

  /** A covered position holding a placeholder, without a record. */
  ghost predicate FilledCover(b: Layout, o: Pos)
  {
    o in b.occupied && o !in b.merged && InGrid(b.grid, o) && b.grid[o.0][o.1].Some?
  }

  // ---------------------------------------------------------------- the transposed layout

  /** A covered slot without a record is, after transposition, a skipped slot. */
  lemma SkippedAfterTranspose(b: Layout, o: Pos)
    requires NonIncreasing(b.grid) && FilledCover(b, o)
    ensures Skipped(TransposedLayout(b), Swap(o))
  {
    var t := TransposedLayout(b);
    WithinWidth(b, o);
    SwapInvolution(o);
    assert SlotAt(t.grid, o.1, o.0) == b.grid[o.0][o.1];
  }

  /**
    After a successful transposition of the builder's output every spanning record is
    at least one column wide, and every column its width jumps over is a covered,
    filled slot without a record: exactly what the renderer's walk needs to print each
    slot in order.
  */
  lemma TransposedWellFormed(b: Layout, rows: seq<Row>, anchors: seq<seq<Pos>>)
    requires BuilderOutput(b, rows, anchors) && SpansPositive(rows)
    ensures ColSpansPositive(TransposedLayout(b)) && SpansCovered(TransposedLayout(b))
  {
    BuilderRecords(b, rows, anchors);
    TransposedRecords(b);
  }

  /**
    Every record has a rowspan of at least one, and the later rows of its first column
    hold covered placeholders without records.
  */
  ghost predicate RecordsFootprint(b: Layout)
  {
    forall p :: p in b.merged ==>
      b.merged[p].rowspan >= 1 && forall r :: p.0 < r < p.0 + b.merged[p].rowspan ==> FilledCover(b, (r, p.1))
  }

  lemma BuilderRecords(b: Layout, rows: seq<Row>, anchors: seq<seq<Pos>>)
    requires BuilderOutput(b, rows, anchors) && SpansPositive(rows)
    ensures RecordsFootprint(b)
  {
    forall p | p in b.merged
      ensures b.merged[p].rowspan >= 1 && forall r :: p.0 < r < p.0 + b.merged[p].rowspan ==> FilledCover(b, (r, p.1))
    {
      RecordFootprint(b, rows, anchors, p);
    }
  }

  lemma TransposedRecords(b: Layout)
    requires NonIncreasing(b.grid) && RecordsFootprint(b)
    ensures ColSpansPositive(TransposedLayout(b)) && SpansCovered(TransposedLayout(b))
  {
    var t := TransposedLayout(b);
    forall q: Pos | q in t.merged
      ensures t.merged[q].colspan >= 1 && forall c :: q.1 < c < q.1 + t.merged[q].colspan ==> Skipped(t, (q.0, c))
    {
      RecordTransposed(b, q);
    }
  }

  /** One record of the transposed layout: at least one column wide, over skipped columns. */
  lemma RecordTransposed(b: Layout, q: Pos)
    requires NonIncreasing(b.grid) && RecordsFootprint(b) && Swap(q) in b.merged
    ensures var t := TransposedLayout(b);
      q in t.merged && t.merged[q].colspan >= 1
      && forall c :: q.1 < c < q.1 + t.merged[q].colspan ==> Skipped(t, (q.0, c))
  {
    var p := Swap(q);
    assert p.0 == q.1 && p.1 == q.0;
    assert TransposedLayout(b).merged[q].colspan == b.merged[p].rowspan;
    forall c | q.1 < c < q.1 + b.merged[p].rowspan ensures Skipped(TransposedLayout(b), (q.0, c)) {
      var o: Pos := (c, q.0);
      SkippedAfterTranspose(b, o);
      assert Swap(o) == (q.0, c);
    }
  }

  /**
    What the transposed layout prints at the position a placed cell's anchor moves to:
    the record with its spans exchanged, or the cell's text with its attribute list.
  */
  lemma PlacedTransposed(b: Layout, a: Pos, cell: Cell)
    requires NonIncreasing(b.grid) && Placed(b, a, Info(cell))
    ensures a.1 < Width(b.grid) && CellAt(TransposedLayout(b), a.1, a.0) == CellMarkup(cell)
  {
    var t := TransposedLayout(b);
    WithinWidth(b, a);
    var q := Swap(a);
    SwapInvolution(a);
    if Spanning(cell) {
      assert t.merged[q] == Exchanged(b.merged[a]);
    } else {
      assert q !in t.merged;
      assert SlotAt(t.grid, q.0, q.1) == b.grid[a.0][a.1];
      assert AttrsAt(t, q) == OtherAttrs(cell.attrs);
    }
  }

  /**
    Input cell `j` of row `i`, anchored at `a`, is printed at `(a.1, a.0)` of the
    transposed layout, a position inside the transposed grid, as `CellMarkup` says.
  */
  lemma CellTransposed(b: Layout, rows: seq<Row>, anchors: seq<seq<Pos>>, i: nat, j: nat)
    requires BuilderOutput(b, rows, anchors)
    requires i < |rows| && j < |rows[i]|
    ensures var a := anchors[i][j];
      a.1 < Width(b.grid) && a.0 < |b.grid|
      && CellAt(TransposedLayout(b), a.1, a.0) == CellMarkup(rows[i][j])
  {
    PlacedTransposed(b, anchors[i][j], rows[i][j]);
  }

  /** Two cells of the input never share an anchor. */
  lemma AnchorsDistinct(b: Layout, rows: seq<Row>, anchors: seq<seq<Pos>>, i: nat, j: nat, i': nat, j': nat)
    requires BuilderOutput(b, rows, anchors)
    requires i < |rows| && j < |rows[i]| && i' < |rows| && j' < |rows[i']|
    requires anchors[i][j] == anchors[i'][j']
    ensures i == i' && j == j'
  {
  }

  /**
    What the transposed layout prints at any position (r, c): when (c, r) is the anchor
    of an input cell, the cell `j` of row `i` returned, that cell's `CellMarkup`;
    otherwise nothing (a covered slot) or an empty `<td></td>`.
  */
  lemma SlotPrinted(b: Layout, rows: seq<Row>, anchors: seq<seq<Pos>>, r: nat, c: nat) returns (i: nat, j: nat)
    requires BuilderOutput(b, rows, anchors)
    ensures IsAnchor(anchors, (c, r)) ==>
      i < |rows| && j < |rows[i]| && anchors[i][j] == (c, r)
      && CellAt(TransposedLayout(b), r, c) == CellMarkup(rows[i][j])
    ensures !IsAnchor(anchors, (c, r)) ==>
      CellAt(TransposedLayout(b), r, c) == "" || CellAt(TransposedLayout(b), r, c) == EmptyMarkup
  {
    var t := TransposedLayout(b);
    var o: Pos := (c, r);
    assert Swap((r, c)) == o;
    if IsAnchor(anchors, o) {
      i, j := AnchorOf(b, rows, anchors, o);
      PlacedTransposed(b, o, rows[i][j]);
    } else {
      i, j := 0, 0;
      assert o !in b.merged;
      if SlotAt(t.grid, r, c).Some? {
        assert t.grid[r][c] == SlotAt(b.grid, c, r);
        assert (r, c) in t.occupied;
      }
    }
  }

  /** Every input cell appears in the printed transposed table as `CellMarkup` says. */
  lemma EveryCellPrinted(tableAttrs: seq<Attr>, b: Layout, rows: seq<Row>, anchors: seq<seq<Pos>>, i: nat, j: nat)
    requires BuilderOutput(b, rows, anchors) && SpansPositive(rows)
    requires i < |rows| && j < |rows[i]|
    ensures ColSpansPositive(TransposedLayout(b))
    ensures Infix(CellMarkup(rows[i][j]), TableMarkup(tableAttrs, TransposedLayout(b), Width(b.grid), |b.grid|))
  {
    TransposedWellFormed(b, rows, anchors);
    CellTransposed(b, rows, anchors, i, j);
    var a := anchors[i][j];
    CellInTable(tableAttrs, TransposedLayout(b), Width(b.grid), |b.grid|, a.1, a.0);
  }

  /** A table of one cell "A": the builder anchors it at (0, 0), in a one-slot grid. */
  lemma OneCellBuilt()
    ensures Built([[Cell([], "A")]]) == (Layout([[Some("A")]], map[], map[], {}), [[(0, 0)]])
  {
    var cell := Cell([], "A");
    var info := CellInfo(1, 1, "A", []);
    assert Trim("A") == "A" by {
      assert SkipSpace("A", 0) == 0;
      assert BackSpace("A", 1) == 1;
    }
    assert Info(cell) == info;
    assert InfoRow([cell]) == [info];
    var b0 := Layout([[]], map[], map[], {});
    assert FirstFree(b0.grid[0], 0) == 0;
    var g := Grown(b0.grid, 1, 1);
    assert g == [[None]] by {
      assert RowOf(b0.grid, 0) == [];
      assert Padded([], 1) == [None];
      assert |g| == 1 && g[0] == [None];
    }
    assert Footprint((0, 0), 1, 1) == {};
    var b1 := AfterPlace(b0.(grid := g), (0, 0), 1, 1, "A", []);
    assert b1.grid == [[Some("A")]] by {
      assert StampedSlot(b0.(grid := g), 0, 0, (0, 0), 1, 1, "A") == Some("A");
      assert |b1.grid| == 1 && b1.grid[0] == [Some("A")];
    }
    assert b1 == Layout([[Some("A")]], map[], map[], {});
    assert PlacedNext(b0, 0, info, 0) == (b1, (0, 0), 1);
    assert PlacedCells(b1, [info], 0, 1, 1, [(0, 0)]) == (b1, [(0, 0)]);
    assert [] + [(0, 0)] == [(0, 0)];
    assert PlacedCells(b0, [info], 0, 0, 0, []) == (b1, [(0, 0)]);
    var empty: Grid := [];
    assert empty + [[]] == b0.grid;
    assert ProcessedRow(Layout([], map[], map[], {}), [cell], 0) == (b1, [(0, 0)]);
    assert [] + [[(0, 0)]] == [[(0, 0)]];
    assert ProcessedRows(b1, [[cell]], 1, [[(0, 0)]]) == (b1, [[(0, 0)]]);
    assert Built([[cell]]) == (b1, [[(0, 0)]]);
  }

  /** A cell without attributes whose text is one non-whitespace character is a 1 by 1 cell with that text. */
  lemma LetterCellInfo(ch: char)
    requires !IsWhitespace(ch)
    ensures Info(Cell([], [ch])) == CellInfo(1, 1, [ch], [])
  {
    assert SkipSpace([ch], 0) == 0;
    assert BackSpace([ch], 1) == 1;
  }

  /** The cells of the ragged table below, as the builder reads them. */
  lemma RaggedInfos()
    ensures InfoRow([Cell([], "A"), Cell([], "B")]) == [CellInfo(1, 1, "A", []), CellInfo(1, 1, "B", [])]
    ensures InfoRow([Cell([], "C")]) == [CellInfo(1, 1, "C", [])]
  {
    LetterCellInfo('A');
    LetterCellInfo('B');
    LetterCellInfo('C');
    var row := [Cell([], "A"), Cell([], "B")];
    assert InfoRow(row)[0] == CellInfo(1, 1, "A", []) && InfoRow(row)[1] == CellInfo(1, 1, "B", []);
  }

  /**
    A 1 by 1 cell without attributes, placed just past the end of row `ri` when every
    earlier row is longer, only appends its text to that row: the growth of lines 81-92
    reaches no other row, and no record, attribute list or covered position is added.
  */
  lemma PlacedAtEnd(b: Layout, ri: nat, t: string)
    requires ri < |b.grid| && forall r :: 0 <= r < ri ==> |b.grid[r]| > |b.grid[ri]|
    ensures PlacedAt(b, ri, CellInfo(1, 1, t, []), |b.grid[ri]|)
         == (b.(grid := b.grid[ri := b.grid[ri] + [Some(t)]]), (ri, |b.grid[ri]|), |b.grid[ri]| + 1)
  {
    var c := |b.grid[ri]|;
    var g := Grown(b.grid, ri + 1, c + 1);
    var want := b.grid[ri := b.grid[ri] + [None]];
    forall r | 0 <= r < |g| ensures g[r] == want[r] {
      assert g[r] == Padded(RowOf(b.grid, r), if r < ri + 1 then c + 1 else 0);
    }
    assert g == want;
    assert Footprint((ri, c), 1, 1) == {};
    var b' := AfterPlace(b.(grid := g), (ri, c), 1, 1, t, []);
    var goal := b.grid[ri := b.grid[ri] + [Some(t)]];
    assert |b'.grid| == |goal|;
    forall r | 0 <= r < |goal| ensures b'.grid[r] == goal[r] {
      assert |b'.grid[r]| == |g[r]| == |goal[r]|;
      forall k | 0 <= k < |goal[r]| ensures b'.grid[r][k] == goal[r][k] {
        assert b'.grid[r][k] == StampedSlot(b.(grid := g), r, k, (ri, c), 1, 1, t);
      }
    }
    assert b'.grid == goal;
    assert b'.occupied == b.occupied;
  }

  /** Row 0 of the ragged table below: cells A and B side by side in a one-row grid. */
  lemma RaggedFirstRow()
    ensures ProcessedRow(Layout([], map[], map[], {}), [Cell([], "A"), Cell([], "B")], 0)
         == (Layout([[Some("A"), Some("B")]], map[], map[], {}), [(0, 0), (0, 1)])
  {
    var ia, ib := CellInfo(1, 1, "A", []), CellInfo(1, 1, "B", []);
    RaggedInfos();
    var b0 := Layout([[]], map[], map[], {});
    var b1 := Layout([[Some("A")]], map[], map[], {});
    var b2 := Layout([[Some("A"), Some("B")]], map[], map[], {});
    assert PlacedNext(b0, 0, ia, 0) == (b1, (0, 0), 1) by {
      PlacedAtEnd(b0, 0, "A");
      assert b0.grid[0 := b0.grid[0] + [Some("A")]] == b1.grid by {
        assert b0.grid[0] + [Some("A")] == [Some("A")];
      }
    }
    assert PlacedNext(b1, 0, ib, 1) == (b2, (0, 1), 2) by {
      PlacedAtEnd(b1, 0, "B");
      assert b1.grid[0 := b1.grid[0] + [Some("B")]] == b2.grid by {
        assert b1.grid[0] + [Some("B")] == [Some("A"), Some("B")];
      }
    }
    assert PlacedCells(b2, [ia, ib], 0, 2, 2, [(0, 0), (0, 1)]) == (b2, [(0, 0), (0, 1)]);
    assert [(0, 0)] + [(0, 1)] == [(0, 0), (0, 1)];
    assert PlacedCells(b1, [ia, ib], 0, 1, 1, [(0, 0)]) == (b2, [(0, 0), (0, 1)]);
    assert [] + [(0, 0)] == [(0, 0)];
    assert PlacedCells(b0, [ia, ib], 0, 0, 0, []) == (b2, [(0, 0), (0, 1)]);
    var empty: Grid := [];
    assert empty + [[]] == b0.grid;
  }

  /** Row 1 of the ragged table below: only row 1's one slot is grown, so row 0 keeps its width. */
  lemma RaggedSecondRow()
    ensures ProcessedRow(Layout([[Some("A"), Some("B")]], map[], map[], {}), [Cell([], "C")], 1)
         == (Layout([[Some("A"), Some("B")], [Some("C")]], map[], map[], {}), [(1, 0)])
  {
    var ic := CellInfo(1, 1, "C", []);
    RaggedInfos();
    var b2 := Layout([[Some("A"), Some("B")]], map[], map[], {});
    var b3 := Layout([[Some("A"), Some("B")], []], map[], map[], {});
    var b4 := Layout([[Some("A"), Some("B")], [Some("C")]], map[], map[], {});
    assert b2.grid + [[]] == b3.grid;
    assert PlacedNext(b3, 1, ic, 0) == (b4, (1, 0), 1) by {
      PlacedAtEnd(b3, 1, "C");
      assert b3.grid[1 := b3.grid[1] + [Some("C")]] == b4.grid by {
        assert b3.grid[1] + [Some("C")] == [Some("C")];
      }
    }
    assert PlacedCells(b4, [ic], 1, 1, 1, [(1, 0)]) == (b4, [(1, 0)]);
    assert [] + [(1, 0)] == [(1, 0)];
    assert PlacedCells(b3, [ic], 1, 0, 0, []) == (b4, [(1, 0)]);
  }

  /**
    A table whose second row has one cell fewer than the first: the builder grows
    row 1 only as far as its one cell reaches, so the grid is ragged and the source's
    slot loop fails on it.
  */
  lemma RaggedBuilt()
    ensures Built([[Cell([], "A"), Cell([], "B")], [Cell([], "C")]])
         == (Layout([[Some("A"), Some("B")], [Some("C")]], map[], map[], {}), [[(0, 0), (0, 1)], [(1, 0)]])
    ensures !WideEnough(Built([[Cell([], "A"), Cell([], "B")], [Cell([], "C")]]).0.grid)
  {
    var rows := [[Cell([], "A"), Cell([], "B")], [Cell([], "C")]];
    var b2 := Layout([[Some("A"), Some("B")]], map[], map[], {});
    var b4 := Layout([[Some("A"), Some("B")], [Some("C")]], map[], map[], {});
    RaggedFirstRow();
    RaggedSecondRow();
    assert ProcessedRows(b4, rows, 2, [[(0, 0), (0, 1)], [(1, 0)]]) == (b4, [[(0, 0), (0, 1)], [(1, 0)]]);
    assert [[(0, 0), (0, 1)]] + [[(1, 0)]] == [[(0, 0), (0, 1)], [(1, 0)]];
    assert ProcessedRows(b2, rows, 1, [[(0, 0), (0, 1)]]) == (b4, [[(0, 0), (0, 1)], [(1, 0)]]);
    assert [] + [[(0, 0), (0, 1)]] == [[(0, 0), (0, 1)]];
    assert |b4.grid[1]| < Width(b4.grid);
  }

  // ---------------------------------------------------------------- the pipeline

  /**
    `transpose` on a document whose first table is `doc` (None: no table). The ghost
    results are the builder's layout and anchors. Without a table the result is
    `NoTableFound`; otherwise it is the transposed layout printed with the table's
    attributes, `Width` rows of `|grid|` slots. A table without rows prints as an
    empty table.
  */
  method Transpose(doc: Option<HtmlTable>) returns (result: Result<string, Error>, ghost b: Layout, ghost anchors: seq<seq<Pos>>)
    requires doc.Some? ==> SpansPositive(doc.value.rows)
    ensures doc.None? <==> result == Err(NoTableFound)
    ensures doc.Some? ==> (b, anchors) == Built(doc.value.rows) && BuilderOutput(b, doc.value.rows, anchors)
    ensures doc.Some? ==>
      ColSpansPositive(TransposedLayout(b))
      && result == Ok(TableMarkup(doc.value.attrs, TransposedLayout(b), Width(b.grid), |b.grid|))
    ensures doc.Some? && doc.value.rows == [] ==> result == Ok("<table" + AttrsMarkup(doc.value.attrs) + "></table>")
  {
    b, anchors := Layout([], map[], map[], {}), [];
    if doc.None? {
      return Err(NoTableFound), b, anchors;
    }
    var table := doc.value;
    var built;
    ghost var an;
    built, an := BuildGrid(table.rows);
    b, anchors := built, an;
    var t := TransposeLayout(built);
    TransposedWellFormed(built, table.rows, an);
    var html := Render(table.attrs, t, Width(built.grid), |built.grid|);
    if table.rows == [] {
      var open := "<table" + AttrsMarkup(table.attrs);
      assert html == open + ">" + "" + "</table>";
      assert open + ">" + "" + "</table>" == open + "></table>";
    }
    result := Ok(html);
  }
}
