/**
  The transposer: slot (r, c) of the grid moves to (c, r), covered positions and
  attribute lists are re-keyed the same way, and spanning records are re-keyed with
  their rowspan and colspan exchanged. Attribute lists of spanning cells are dropped
  here, since their records carry them.
*/
module Transposer {
  import opened Wrappers
  import opened Table

  /** The position a slot moves to. */
  function Swap(p: Pos): Pos
  {
    (p.1, p.0)
  }

  /** A spanning record as it reads after transposition. */
  function Exchanged(m: MergedCell): MergedCell
  {
    MergedCell(m.colspan, m.rowspan, m.content, m.attributes)
  }

  lemma SwapInvolution(p: Pos)
    ensures Swap(Swap(p)) == p
  {
  }

  /** The number of columns the transposer assumes: the length of row 0, or 0 without rows. */
  function Width(grid: Grid): nat
  {
    if |grid| > 0 then |grid[0]| else 0
  }

  /** Every row reaches the width of row 0, so reading slot (r, c) for all c < Width never fails. */
  predicate WideEnough(grid: Grid)
  {
    forall r :: 0 <= r < |grid| ==> |grid[r]| >= Width(grid)
  }

  /** All rows have the same length. */
  predicate Rectangular(grid: Grid)
  {
    forall r :: 0 <= r < |grid| ==> |grid[r]| == Width(grid)
  }

  /**
    The grid with rows and columns exchanged: `Width(grid)` rows of `|grid|` slots,
    slot (c, r) holding slot (r, c) of the grid, or `None` past the end of row r.
  */
  function Transposed(grid: Grid): Grid
  {
    seq(Width(grid), c requires 0 <= c => seq(|grid|, r requires 0 <= r => SlotAt(grid, r, c)))
  }

  /**
    The slot loop of the transposer as the source writes it, indexing row r at every
    column of row 0. It fails exactly when some row is shorter than row 0 (the source
    indexes past the end of that row and panics); otherwise slot (c, r) of the result is
    slot (r, c) of the grid, for every column of row 0 and every row.
  */
  method TransposeGrid(grid: Grid) returns (t: Option<Grid>)
    ensures t.None? <==> !WideEnough(grid)
    ensures t.Some? ==> |t.value| == Width(grid) && forall c :: 0 <= c < |t.value| ==> |t.value[c]| == |grid|
    ensures t.Some? ==> forall c, r :: 0 <= c < Width(grid) && 0 <= r < |grid| ==> t.value[c][r] == grid[r][c]
    ensures t.Some? ==> t.value == Transposed(grid)
  {
    var maxRow := |grid|;
    var maxCol := if maxRow > 0 then |grid[0]| else 0;
    var out: Grid := seq(maxCol, _ => seq(maxRow, _ => None));
    for r := 0 to maxRow
      invariant |out| == maxCol && forall c :: 0 <= c < maxCol ==> |out[c]| == maxRow
      invariant forall r' :: 0 <= r' < r ==> |grid[r']| >= maxCol
      invariant forall c, r' :: 0 <= c < maxCol && 0 <= r' < r ==> out[c][r'] == grid[r'][c]
    {
      for c := 0 to maxCol
        invariant |out| == maxCol && forall c' :: 0 <= c' < maxCol ==> |out[c']| == maxRow
        invariant c <= |grid[r]|
        invariant forall c', r' :: 0 <= c' < maxCol && 0 <= r' < r ==> out[c'][r'] == grid[r'][c']
        invariant forall c' :: 0 <= c' < c ==> out[c'][r] == grid[r][c']
      {
        if c >= |grid[r]| {
          return None;
        }
        out := out[c := out[c][r := grid[r][c]]];
      }
    }
    assert WideEnough(grid);
    forall c | 0 <= c < maxCol ensures out[c] == Transposed(grid)[c] {
    }
    t := Some(out);
  }

  /**
    The grid of a two-row table whose second row has one cell fewer than the first:
    the builder pads only the rows a cell reaches, so row 1 stays one slot short. The
    source's slot loop fails on it, while the padded transposition is a full 2 by 2
    grid with an empty slot where row 1 has no cell.
  */
  lemma ShortRowFails()
    ensures var grid: Grid := [[Some("A"), Some("B")], [Some("C")]];
      !WideEnough(grid) && Transposed(grid) == [[Some("A"), Some("C")], [Some("B"), None]]
  {
    var grid: Grid := [[Some("A"), Some("B")], [Some("C")]];
    assert |grid[1]| < Width(grid);
    var t := Transposed(grid);
    assert t[0] == [Some("A"), Some("C")];
    assert t[1] == [Some("B"), None];
  }

  /**
    The slot loop with the read past the end of a row giving `None`, as the renderer
    already treats such reads; it never fails and yields the padded transposition.
  */
  method TransposePadded(grid: Grid) returns (t: Grid)
    ensures t == Transposed(grid)
  {
    var maxRow := |grid|;
    var maxCol := if maxRow > 0 then |grid[0]| else 0;
    t := seq(maxCol, _ => seq(maxRow, _ => None));
    for r := 0 to maxRow
      invariant |t| == maxCol && forall c :: 0 <= c < maxCol ==> |t[c]| == maxRow
      invariant forall c, r' :: 0 <= c < maxCol && 0 <= r' < r ==> t[c][r'] == SlotAt(grid, r', c)
    {
      for c := 0 to maxCol
        invariant |t| == maxCol && forall c' :: 0 <= c' < maxCol ==> |t[c']| == maxRow
        invariant forall c', r' :: 0 <= c' < maxCol && 0 <= r' < r ==> t[c'][r'] == SlotAt(grid, r', c')
        invariant forall c' :: 0 <= c' < c ==> t[c'][r] == SlotAt(grid, r, c')
      {
        var slot := if c < |grid[r]| then grid[r][c] else None;
        t := t[c := t[c][r := slot]];
      }
    }
    forall c | 0 <= c < maxCol ensures t[c] == Transposed(grid)[c] {
    }
  }

  /**
    On a grid whose row lengths never increase, the padded transposition keeps every
    slot: slot (r, c) of the grid is slot (c, r) of the result, and the result's other
    slots are `None`.
  */
  lemma TransposedKeepsSlots(grid: Grid)
    requires NonIncreasing(grid)
    ensures var t := Transposed(grid);
      |t| == Width(grid) && (forall c :: 0 <= c < |t| ==> |t[c]| == |grid|)
      && (forall r, c :: 0 <= r < |grid| && 0 <= c < |grid[r]| ==> t[c][r] == grid[r][c])
      && (forall r, c :: 0 <= r < |grid| && |grid[r]| <= c < Width(grid) ==> t[c][r] == None)
  {
    var t := Transposed(grid);
    forall r, c | 0 <= r < |grid| && 0 <= c < |grid[r]| ensures t[c][r] == grid[r][c] {
      if r > 0 {
        assert |grid[0]| >= |grid[r]|;
      }
    }
  }

  /** Transposing a rectangular grid twice gives it back, unless its rows are empty. */
  lemma TransposedTwice(grid: Grid)
    requires Rectangular(grid) && (grid == [] || Width(grid) > 0)
    ensures Rectangular(Transposed(grid)) && Transposed(Transposed(grid)) == grid
  {
    var t := Transposed(grid);
    var tt := Transposed(t);
    if grid != [] {
      assert Width(t) == |grid|;
      forall r | 0 <= r < |grid| ensures tt[r] == grid[r] {
        assert |tt[r]| == |t| == Width(grid) == |grid[r]|;
      }
    }
  }

  /**
    On a grid whose row lengths never increase, the transposer succeeds exactly when
    all rows have the same length.
  */
  lemma WideEnoughIsRectangular(grid: Grid)
    requires NonIncreasing(grid)
    ensures WideEnough(grid) <==> Rectangular(grid)
  {
    if WideEnough(grid) {
      forall r | 0 <= r < |grid| ensures |grid[r]| == Width(grid) {
        if r > 0 {
          assert |grid[0]| >= |grid[r]|;
        }
      }
    }
  }

  // ---------------------------------------------------------------- side tables

  /** The covered positions after transposition. */
  function TransposedKeys(s: set<Pos>): (t: set<Pos>)
    ensures forall p :: p in t <==> Swap(p) in s
  {
    var t := set p | p in s :: Swap(p);
    assert forall p :: Swap(p) in s ==> Swap(Swap(p)) in t;
    t
  }

  /** The spanning records after transposition: re-keyed, spans exchanged. */
  function TransposedMerged(m: map<Pos, MergedCell>): (t: map<Pos, MergedCell>)
    ensures forall p :: p in t <==> Swap(p) in m
    ensures forall p :: p in t ==> t[p] == Exchanged(m[Swap(p)])
  {
    map p | p in TransposedKeys(m.Keys) :: Exchanged(m[Swap(p)])
  }

  /** The attribute lists after transposition: only those of cells without a spanning record. */
  function TransposedAttrs(a: map<Pos, seq<Attr>>, m: map<Pos, MergedCell>): (t: map<Pos, seq<Attr>>)
    ensures forall p :: p in t <==> Swap(p) in a && Swap(p) !in m
    ensures forall p :: p in t ==> t[p] == a[Swap(p)]
  {
    map p | p in TransposedKeys(a.Keys - m.Keys) :: a[Swap(p)]
  }

  /** Re-keys the covered positions, one element of the set at a time in no particular order. */
  method RekeyOccupied(occupied: set<Pos>) returns (t: set<Pos>)
    ensures t == TransposedKeys(occupied)
  {
    t := {};
    var rest := occupied;
    while rest != {}
      invariant rest <= occupied
      invariant forall p :: p in t <==> Swap(p) in occupied - rest
      decreases |rest|
    {
      var p :| p in rest;
      SwapInvolution(p);
      t := t + {Swap(p)};
      rest := rest - {p};
    }
  }

  /** Re-keys the attribute lists, skipping those of cells with a spanning record. */
  method RekeyAttributes(cellAttrs: map<Pos, seq<Attr>>, merged: map<Pos, MergedCell>)
    returns (t: map<Pos, seq<Attr>>)
    ensures t == TransposedAttrs(cellAttrs, merged)
  {
    t := map[];
    var rest := cellAttrs.Keys;
    while rest != {}
      invariant rest <= cellAttrs.Keys
      invariant forall p :: p in t <==> Swap(p) in cellAttrs.Keys - rest && Swap(p) !in merged
      invariant forall p :: p in t ==> t[p] == cellAttrs[Swap(p)]
      decreases |rest|
    {
      var p :| p in rest;
      SwapInvolution(p);
      if p !in merged {
        t := t[Swap(p) := cellAttrs[p]];
      }
      rest := rest - {p};
    }
  }

  /** Re-keys the spanning records and exchanges their spans. */
  method RekeyMerged(merged: map<Pos, MergedCell>) returns (t: map<Pos, MergedCell>)
    ensures t == TransposedMerged(merged)
  {
    t := map[];
    var rest := merged.Keys;
    while rest != {}
      invariant rest <= merged.Keys
      invariant forall p :: p in t <==> Swap(p) in merged.Keys - rest
      invariant forall p :: p in t ==> t[p] == Exchanged(merged[Swap(p)])
      decreases |rest|
    {
      var p :| p in rest;
      SwapInvolution(p);
      t := t[Swap(p) := Exchanged(merged[p])];
      rest := rest - {p};
    }
  }

  lemma TransposedKeysTwice(s: set<Pos>)
    ensures TransposedKeys(TransposedKeys(s)) == s
  {
    assert forall p :: Swap(Swap(p)) == p;
  }

  lemma TransposedMergedTwice(m: map<Pos, MergedCell>)
    ensures TransposedMerged(TransposedMerged(m)) == m
  {
    assert forall p :: Swap(Swap(p)) == p;
    assert forall c :: Exchanged(Exchanged(c)) == c;
  }

  /**
    Transposing the attribute lists twice (against the transposed records) keeps
    exactly the lists of cells without a spanning record.
  */
  lemma TransposedAttrsTwice(a: map<Pos, seq<Attr>>, m: map<Pos, MergedCell>)
    ensures TransposedAttrs(TransposedAttrs(a, m), TransposedMerged(m)) == map p | p in a && p !in m :: a[p]
  {
    assert forall p :: Swap(Swap(p)) == p;
  }

  // ---------------------------------------------------------------- the layout

  /** The whole layout after transposition. */
  function TransposedLayout(l: Layout): Layout
  {
    Layout(Transposed(l.grid), TransposedMerged(l.merged), TransposedAttrs(l.cellAttrs, l.merged),
           TransposedKeys(l.occupied))
  }

  /** Transposes the grid, padding short rows, and its side tables. */
  method TransposeLayout(l: Layout) returns (t: Layout)
    ensures t == TransposedLayout(l)
  {
    var grid := TransposePadded(l.grid);
    var occupied := RekeyOccupied(l.occupied);
    var cellAttrs := RekeyAttributes(l.cellAttrs, l.merged);
    var merged := RekeyMerged(l.merged);
    t := Layout(grid, merged, cellAttrs, occupied);
  }
}
