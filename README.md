# html_transpose in Dafny

This project models `transpose` from the `html_transpose` library. `transpose` takes an HTML
document with a table in it and returns the same table with rows and columns swapped. Cells
that span several rows or columns keep one `<td>`, with their `rowspan` and `colspan`
exchanged. The model follows the function's three stages.

- **Grid builder** (`builder.dfy`, module `GridBuilder`). It walks the rows and their cells with
  a column cursor and skips slots that earlier spans already claimed. It grows the grid when a
  cell needs more room. It writes each cell's trimmed text at its anchor and fills the rest of
  the cell's footprint with the `Some("")` placeholder. Along the way it records:
  - a `MergedCell` for each cell that spans more than one slot;
  - the attribute list of each cell, without `rowspan` and `colspan`;
  - the set of covered positions.

  The builder is imperative, as in the source. Each of its methods is proved to compute a
  function that follows the source's cursor rule: `FirstFree`, `Grown`, `AfterPlace`,
  `PlacedNext`, `PlacedCells`, `ProcessedRow` and, for the whole loop, `Built`. Before a cell is
  placed, the builder reads off its `CellInfo`: spans, trimmed text and non-span attributes, as
  lines 60-78 compute them. A ghost list of anchors records where each input cell was placed.
  The invariant `BuilderOutput` holds of that result. It says that every cell sits at its anchor
  with its text, its record and its attributes, and that the rest of its footprint is covered.
  It also says that every filled slot is an anchor or covered.
- **Transposer** (`transposer.dfy`, module `Transposer`). Slot (r, c) moves to (c, r). Covered
  positions and attribute lists are re-keyed the same way, and spanning records are re-keyed
  with their spans exchanged. Attribute lists of spanning cells are dropped here, because their
  records carry them.
- **Renderer** (`renderer.dfy`, module `Renderer`). It prints each transposed row with a column
  cursor:
  - a spanning record prints one `<td>` and moves the cursor past its width;
  - a covered slot prints nothing;
  - an ordinary slot prints its escaped text and its attributes;
  - an unfilled slot prints `<td></td>`.

  `RenderRow` is proved equal to a recursive function, `RowFrom`. On the builder's output,
  `RowFrom` equals a slot-by-slot reference walk, `WalkRow`.
- **Escaping** (`escape.dfy`) covers `escape_html` and `escape_attr_value`, both written as their
  chains of `str::replace`. Each chain is proved equal to escaping one character at a time, to
  leave no character that could end an element or an attribute value, and to decode back to its
  input.
- **Text** (`text.dfy`) covers the Unicode whitespace trim, Rust's `usize` parse, and the decimal
  formatting used for spans.

The document parser is not modelled. The input is the document's first table, already parsed:
its attributes, plus for each `<tr>` the `<td>`/`<th>` cells with their attributes and their
concatenated text. `None` stands for a document without a table.

`HtmlTranspose.Transpose` (`transpose.dfy`) chains the three stages. Its output is the printing
of `Built(rows)`, transposed, and so is fixed by the input. `EveryCellPrinted` proves the
pipeline's end-to-end promise: every input cell appears in the output as one `<td>`, with its
trimmed text and its non-span attributes, and with its spans exchanged if it spans.
`SlotPrinted` and `AnchorsDistinct` prove the converse: at every position, the output prints
nothing, `<td></td>`, or the `<td>` of the one input cell anchored there.

## Model

| member | source | states |
|---|---|---|
| Text.SkipSpace | src/lib.rs:68 | the scan from `i` stops at the first non-whitespace character or at the end; everything it passes is whitespace |
| Text.BackSpace | src/lib.rs:68 | the backward scan from `j` stops just after the last non-whitespace character before `j`, or at 0; everything it passes is whitespace |
| Text.TrimStart | src/lib.rs:68 | the result is a suffix of the input, character by character; everything cut off is whitespace; the result does not start with whitespace |
| Text.TrimEnd | src/lib.rs:68 | the result is a prefix of the input, character by character; everything cut off is whitespace; the result does not end with whitespace |
| Text.Trim | src/lib.rs:68 | `str::trim`: the result neither starts nor ends with whitespace, and only whitespace is removed at either end |
| Text.TrimIdempotent | src/lib.rs:68 | trimming twice is trimming once |
| Text.ParseUsize | src/lib.rs:61-66 | `parse::<usize>()` succeeds only on an optional `+` followed by at least one digit; every all-digit numeral up to the `usize` maximum parses to its value; a result never exceeds that maximum |
| Text.DecimalStringReadsBack | src/lib.rs:190-195 | the numeral printed for a span is a non-empty run of digits with no leading zero that denotes the span, and it parses back to the span |
| Escape.ReplaceChars | src/lib.rs:238-242 | each character of `replace(c, rep)` comes from `rep` or is a character of the input other than `c`; without `c` the text is unchanged |
| Escape.ReplaceAppend | src/lib.rs:238-242 | `replace` distributes over concatenation |
| Escape.ReplaceSingle | src/lib.rs:238-242 | `replace` on one character gives `rep` or that character |
| Escape.EscapeHtmlSafe | src/lib.rs:237-243 | escaped text contains no `<`, `>`, `"` or `'` |
| Escape.EscapeHtmlPlain | src/lib.rs:237-243 | text without any of the five special characters is left unchanged |
| Escape.EscapeHtmlAppend | src/lib.rs:237-243 | escaping distributes over concatenation |
| Escape.EscapeHtmlSingle | src/lib.rs:237-243 | on one character, the replace chain gives that character's entity (`&amp;` is applied first, so no entity is escaped twice) |
| Escape.EscapeHtmlIsByChar | src/lib.rs:237-243 | the replace chain equals escaping one character at a time |
| Escape.UnescapeEntity | src/lib.rs:237-243 | decoding an escaped character followed by text gives the character followed by the decoded text |
| Escape.UnescapeEscapeHtml | src/lib.rs:237-243 | decoding the escaped text gives the original text back |
| Escape.UnescapeByChar | src/lib.rs:237-243 | decoding the one-character-at-a-time escape gives the original text back |
| Escape.EscapeAttrSafe | src/lib.rs:246-250 | an escaped attribute value contains no `"` and no `<`; a value without `&`, `"` and `<` is left unchanged |
| Escape.EscapeAttrAppend | src/lib.rs:246-250 | attribute escaping distributes over concatenation |
| Escape.EscapeAttrSingle | src/lib.rs:246-250 | on one character, the attribute chain gives `&amp;`, `&quot;`, `&lt;` or the character itself |
| Escape.EscapeAttrIsByChar | src/lib.rs:246-250 | the attribute chain equals escaping one character at a time |
| Escape.UnescapeEscapeAttrValue | src/lib.rs:246-250 | decoding an escaped attribute value gives the value back |
| Escape.UnescapeAttrByChar | src/lib.rs:246-250 | decoding the one-character-at-a-time attribute escape gives the value back |
| Table.AttrValue | src/lib.rs:61-66 | `attr(name)` is None exactly when no attribute has that name; otherwise it is the value of an attribute with that name |
| Table.OtherAttrs | src/lib.rs:71-78 | keeps exactly the attributes not named `rowspan` or `colspan`, and never more than there were |
| Table.SpanDefaults | src/lib.rs:61-66 | a span is 1 when the attribute is missing or does not parse, is the parsed value otherwise, and never exceeds the `usize` maximum |
| Table.SpanReadsPrinted | src/lib.rs:61-66 | a span attribute in printed form reads back as the same span |
| GridBuilder.Padded | src/lib.rs:88-92 | padding a row to length n keeps the row as its prefix and adds only `None` slots |
| GridBuilder.FirstFree | src/lib.rs:51-59 | the first `None` slot of the row at or after the cursor, or the cursor moved just past the end of the row; every slot before it from the cursor on is filled |
| GridBuilder.SkipFilled | src/lib.rs:51-53 | the cursor stops at the first `None` slot at or after its start, or just past the end of the row; every slot it skips is filled |
| GridBuilder.GrownExtends | src/lib.rs:81-92 | growing keeps every slot, adds only `None` slots, and keeps row lengths non-increasing downwards |
| GridBuilder.Grow | src/lib.rs:81-92 | rows are appended up to the needed count; rows above it are padded with `None` to the needed width; other rows are unchanged; no slot is lost; row lengths still never increase downwards |
| GridBuilder.GrownRoom | src/lib.rs:81-95 | after growing for a cell at a free slot, the slot is in the grid and still `None`, and every row of the cell's footprint reaches past its last column |
| GridBuilder.MarkStep | src/lib.rs:113-123 | marking one slot of the footprint, other than the anchor, adds exactly that slot to the placeholders and to the covered set |
| GridBuilder.MarkRow | src/lib.rs:114-122 | the inner marking loop covers one more row of the footprint and nothing else |
| GridBuilder.FootprintInRoom | src/lib.rs:81-123 | in the room growth made for a cell, its footprint never holds the anchor, and every footprint position that lines 113-123 write a placeholder to lies inside the grid, within the cell's rowspan rows and colspan columns |
| GridBuilder.PlacementIsAfterPlace | src/lib.rs:95-123 | the placement relation describes exactly one new state, `AfterPlace` |
| GridBuilder.AfterPlaceIsPlacement | src/lib.rs:95-123 | `AfterPlace` meets the placement relation |
| GridBuilder.Place | src/lib.rs:95-123 | the new state is `AfterPlace`: the text at the anchor, placeholders on the rest of the footprint, every other slot unchanged; the attribute list is recorded exactly when it is non-empty; a record exists exactly when the cell spans; the covered set grows by the footprint minus the anchor |
| GridBuilder.InfosSpans | src/lib.rs:61-66 | when every cell's spans are at least 1, so are the spans the builder reads off them |
| GridBuilder.PlacedExtends | src/lib.rs:88-92 | growing the grid keeps every placed cell placed |
| GridBuilder.OccupiedExtends | src/lib.rs:88-92 | growing the grid keeps every covered slot a placeholder |
| GridBuilder.PlacedAfterPlace | src/lib.rs:95-123 | placing a cell leaves every cell anchored before it (earlier row, or same row to the left) placed |
| GridBuilder.NewCellPlaced | src/lib.rs:95-123 | a cell written on a free, unrecorded slot is placed with its text, record, attributes and footprint |
| GridBuilder.OccupiedAfterPlace | src/lib.rs:113-123 | after a placement every covered position is still a placeholder in the grid |
| GridBuilder.ProgressExtends | src/lib.rs:81-92 | growing the grid keeps the builder's per-row invariant |
| GridBuilder.RowsAfterPlace | src/lib.rs:95-123 | placing a cell in the current row keeps all earlier rows placed |
| GridBuilder.CurAfterPlace | src/lib.rs:95-123 | placing a cell keeps the earlier cells of the current row placed |
| GridBuilder.OrderAfterAppend | src/lib.rs:125 | a cell anchored right of all earlier anchors of the row keeps the row's anchors in increasing order |
| GridBuilder.KeysAfterPlace | src/lib.rs:98-110 | records and attribute lists exist only at anchors of placed cells |
| GridBuilder.ProgressPlace | src/lib.rs:95-125 | placing the next cell and moving the cursor past its colspan keeps the per-row invariant with that cell added |
| GridBuilder.ProgressAdvance | src/lib.rs:57-59 | moving the cursor right keeps the per-row invariant |
| GridBuilder.ProgressStart | src/lib.rs:47-53 | a new row starts with the invariant and no cells placed in it |
| GridBuilder.RowsAppendRow | src/lib.rs:44-46 | appending an empty row keeps every earlier row placed and lengths non-increasing |
| GridBuilder.ProgressDone | src/lib.rs:56-126 | once every cell of the row is placed, the row's anchors join the finished rows |
| GridBuilder.ProgressGrown | src/lib.rs:81-92 | growing the grid for the next cell keeps the per-row invariant |
| GridBuilder.ProgressRoom | src/lib.rs:81-95 | growing for a cell at a free slot keeps the per-row invariant and makes room for its footprint |
| GridBuilder.ProgressStamped | src/lib.rs:95-125 | writing the next cell into the room made for it keeps the invariant, with its anchor added and the cursor past its colspan |
| GridBuilder.ProgressAt | src/lib.rs:81-125 | growing and then placing the next cell at a free slot keeps the invariant, with its anchor added and the cursor past its colspan |
| GridBuilder.ProgressNext | src/lib.rs:57-125 | one step of the cell loop, as `PlacedNext` computes it, keeps the invariant with the cell's anchor added |
| GridBuilder.MakeRoom | src/lib.rs:57-92 | the cursor moves to `FirstFree`, the first free slot at or after it, and the grid becomes `Grown` for the next cell's footprint there |
| GridBuilder.PlaceNext | src/lib.rs:56-125 | the new state, anchor and cursor are `PlacedNext`: the cell anchored at `FirstFree` from the cursor, the grid grown for it, the cell written there by `AfterPlace`, and the cursor moved on by exactly its colspan |
| GridBuilder.PlacedNextIs | src/lib.rs:57-125 | the steps `MakeRoom` and `Place` take together are `PlacedNext` |
| GridBuilder.PlacedCellsStep | src/lib.rs:55-126 | one more step of the cell loop leaves what `PlacedCells` computes for the rest of the row unchanged |
| GridBuilder.PlaceCellsStep | src/lib.rs:56-126 | one turn of the cell loop keeps the builder's invariant, with the new anchor added, and leaves unchanged what `PlacedCells` computes for the whole row |
| GridBuilder.PlaceCells | src/lib.rs:55-126 | the cell loop computes `PlacedCells`, one `PlacedNext` per cell in order, and keeps the per-row invariant |
| GridBuilder.BuildRow | src/lib.rs:43-126 | the new state and anchors are `ProcessedRow`: a grid row appended if needed, the cursor moved to the row's first free slot, each cell then placed as `PlaceNext` says; afterwards every cell of that row and of all earlier rows is placed |
| GridBuilder.BuildRows | src/lib.rs:41-127 | the row loop computes `Built`, and every row is built |
| GridBuilder.BuildGrid | src/lib.rs:38-127 | the result is `Built(rows)`, with the cursor rule of lines 51-59 and 125 for every cell. `BuilderOutput` holds of it: at least one grid row per table row; row lengths never increasing downwards; each cell at its recorded anchor, in its own row, anchors increasing along the row, with its trimmed text, record, attributes and covered footprint; records and attribute lists only at anchors; every filled slot an anchor or covered. An empty table gives an empty grid |
| Transposer.SwapInvolution | src/lib.rs:149-151 | swapping a position twice gives it back |
| Transposer.TransposeGrid | src/lib.rs:129-146 | the source's slot loop fails exactly when some row is shorter than row 0; otherwise slot (c, r) of its `max_col` by `max_row` result is slot (r, c) of the grid |
| Transposer.ShortRowFails | src/lib.rs:142-146 | on the grid of a two-row table whose second row is one cell short, the source's loop fails, while the padded transposition is the full 2 by 2 grid |
| Transposer.TransposePadded | src/lib.rs:142-146 | the padded slot loop never fails, and yields the transposition with `None` past the end of a short row |
| Transposer.TransposedKeepsSlots | src/lib.rs:133-146 | on the builder's non-increasing rows, the transposition keeps every slot at its swapped position and is `None` elsewhere |
| Transposer.TransposedTwice | src/lib.rs:142-146 | transposing a rectangular grid twice gives it back |
| Transposer.WideEnoughIsRectangular | src/lib.rs:129-146 | on non-increasing rows, the source's loop succeeds exactly when the grid is rectangular |
| Transposer.TransposedKeys | src/lib.rs:148-151 | a position is covered after transposition exactly when its swap was covered before |
| Transposer.TransposedMerged | src/lib.rs:161-171 | a record exists at a position exactly when one existed at its swap, and it has the spans exchanged |
| Transposer.TransposedAttrs | src/lib.rs:153-159 | an attribute list exists at a position exactly when its swap had one and no record; the list is the same |
| Transposer.RekeyOccupied | src/lib.rs:148-151 | the set loop, in any order, builds the swapped set |
| Transposer.RekeyAttributes | src/lib.rs:153-159 | the map loop, in any order, builds the swapped attribute lists without those of spanning cells |
| Transposer.RekeyMerged | src/lib.rs:161-171 | the map loop, in any order, builds the swapped records with exchanged spans |
| Transposer.TransposedKeysTwice | src/lib.rs:148-151 | re-keying the covered set twice gives it back |
| Transposer.TransposedMergedTwice | src/lib.rs:161-171 | re-keying the records twice gives them back |
| Transposer.TransposedAttrsTwice | src/lib.rs:153-159 | re-keying the attribute lists twice keeps exactly those of non-spanning cells |
| Transposer.TransposeLayout | src/lib.rs:129-171 | the grid and all three side tables are transposed |
| Renderer.RowFromStep | src/lib.rs:185-226 | one cursor step prints the piece for the current slot and moves on by a record's width or by one |
| Renderer.AppendAttrs | src/lib.rs:176-178 | appends each attribute as ` name="escaped value"`, in order |
| Renderer.AppendSpan | src/lib.rs:189-202 | appends `<td`, the rowspan and colspan parts (each only above 1), the record's attributes, `>`, the escaped text and `</td>` |
| Renderer.AppendPlain | src/lib.rs:209-218 | appends `<td`, the slot's attribute list (empty if none is recorded), `>`, the escaped text and `</td>` |
| Renderer.RenderRow | src/lib.rs:182-228 | the cursor loop over one row appends exactly `RowFrom` of that row |
| Renderer.Render | src/lib.rs:174-231 | the output is `<table`, the table's attributes, `>`, each row in `<tr>`, then `</table>` |
| Renderer.SkippedPrintsNothing | src/lib.rs:206-220 | a covered, filled slot without a record prints nothing |
| Renderer.JumpedIsJoined | src/lib.rs:204-205 | when every slot a jump skips prints nothing, jumping prints the same as visiting every slot |
| Renderer.CoveredSilent | src/lib.rs:204-205 | when the columns a record spans are covered, every slot the cursor jumps over prints nothing |
| Renderer.RowFromIsWalk | src/lib.rs:184-226 | on such layouts the cursor walk prints each slot's piece in order, as the reference walk does |
| Renderer.RowInRows | src/lib.rs:181-229 | each printed row, wrapped in `<tr>`, is part of the printed rows |
| Renderer.CellInTable | src/lib.rs:174-231 | the piece printed for any slot appears in the output |
| Renderer.AttrMarkupReadsBack | src/lib.rs:176-178 | a printed attribute is ` name="v"` where `v` has no `"` and decodes to the value |
| Renderer.PlainMarkupReadsBack | src/lib.rs:209-218 | an ordinary `<td>`'s text has no `<` and decodes to the cell's text |
| HtmlTranspose.AnchorOf | src/lib.rs:42-126 | every recorded anchor is the anchor of an input cell that is placed there |
| HtmlTranspose.OccupiedNotAnchor | src/lib.rs:112-123 | a covered position holds a placeholder and has no record and no attribute list |
| HtmlTranspose.RecordFootprint | src/lib.rs:102-123 | a record's rowspan is at least 1, and every later row of its first column is a covered placeholder |
| HtmlTranspose.BuilderRecords | src/lib.rs:102-123 | every record of the builder's output has that footprint |
| HtmlTranspose.SkippedAfterTranspose | src/lib.rs:142-151 | a covered placeholder is still a covered, filled slot without a record after transposition |
| HtmlTranspose.RecordTransposed | src/lib.rs:161-171 | each transposed record is at least one column wide, and the columns it spans are covered, filled and unrecorded |
| HtmlTranspose.TransposedRecords | src/lib.rs:161-205 | every transposed record is like that, so the renderer's cursor always moves on |
| HtmlTranspose.TransposedWellFormed | src/lib.rs:129-205 | the transposed builder output meets everything the renderer's walk relies on |
| HtmlTranspose.PlacedTransposed | src/lib.rs:141-171 | at the swapped anchor, the transposed layout prints the cell's record with spans exchanged, or its text with its attributes |
| HtmlTranspose.CellTransposed | src/lib.rs:42-171 | each input cell's swapped anchor lies inside the transposed grid and prints that cell |
| HtmlTranspose.AnchorsDistinct | src/lib.rs:51-59 | two input cells never share an anchor |
| HtmlTranspose.SlotPrinted | src/lib.rs:42-231 | at every position (r, c) of the transposed layout, the output prints the `<td>` of the input cell anchored at (c, r) when there is one; otherwise it prints nothing (a covered slot) or `<td></td>` |
| HtmlTranspose.OneCellBuilt | src/lib.rs:42-127 | a one-cell table with text "A" is built into the one-slot grid `[[Some("A")]]`, with the cell anchored at (0, 0) |
| HtmlTranspose.PlacedAtEnd | src/lib.rs:81-125 | a 1 by 1 cell without attributes placed just past the end of a row, when every earlier row is longer, appends its text to that row and changes nothing else; the cursor moves on by one |
| HtmlTranspose.LetterCellInfo | src/lib.rs:60-78 | a cell without attributes whose text is one non-whitespace character is read as a 1 by 1 cell with that text and no attributes |
| HtmlTranspose.RaggedBuilt | src/lib.rs:42-127 | the table with cells A, B in row 0 and C in row 1 is built into the grid `[[Some("A"), Some("B")], [Some("C")]]`, with anchors (0, 0), (0, 1) and (1, 0); row 1 is shorter than row 0, so the source's slot loop fails on it |
| HtmlTranspose.EveryCellPrinted | src/lib.rs:14-234 | each input cell appears in the output as its `<td>`: trimmed text, non-span attributes, and exchanged spans if it spans |
| HtmlTranspose.Transpose | src/lib.rs:14-234 | no table gives "No <table> element found"; otherwise the output is the transposed `Built(rows)`, printed with the table's attributes; a table without rows prints `<table…></table>` |

## Findings

| source | as written | input that shows it | evidently intended | confidence | as-written member | corrected member |
|---|---|---|---|---|---|---|
| src/lib.rs:142-146 | the slot loop reads `grid[r][c]` for every column of row 0, so it panics on a row shorter than row 0 (the builder pads only the rows a cell reaches, lines 88-92) | `<table><tr><td>A</td><td>B</td></tr><tr><td>C</td></tr></table>`: grid `[[A, B], [C]]` | read such slots as "no cell", which the renderer already prints as `<td></td>` (line 223); the output is `A C / B <td></td>` | high, not executed | HtmlTranspose.RaggedBuilt, Transposer.TransposeGrid, Transposer.ShortRowFails | Transposer.TransposePadded |

The rest of the model, `HtmlTranspose.Transpose` included, uses the padded transposition.
`TransposeGrid`'s contract shows that the two agree wherever the source's loop succeeds.

## Left out

- `src/main.rs`, the command-line wrapper, is not part of this model.
- HTML parsing is not modelled: the `scraper` document, selecting the first `<table>`, the
  `tr` and `td, th` selectors, and `cell.text()`. The model starts from the parsed table.
  `<th>` cells are printed as `<td>`, as in the source.
- Constant selector parsing (`Selector::parse`) cannot fail, so its error paths are not modelled.
- Attribute maps: the source prints `HashMap` attributes in hash order. The model keeps the
  parsed attribute order, which is one of the possible orders. Duplicate attribute names are
  assumed to be gone already, as the HTML parser does.
- GridBuilder.BuildGrid and HtmlTranspose.Transpose require every `rowspan` and `colspan` to be
  at least 1. The source reads a span of 0 like any other value. Such a span can make it
  panic, by indexing past a row at line 95. It can also make it loop forever at line 205, once
  the span becomes a transposed colspan of 0. Other inputs with a span of 0 are processed
  normally by the source but are still excluded from the model. One example is
  `<tr><td>A</td><td>B</td><td rowspan="2">C</td></tr><tr><td colspan="0">X</td><td>Y</td></tr>`,
  where row 1 is already long enough at line 95 and `X` gets no record.
- Built: its exact row lengths and its `None` slots are given by the function itself, through
  `Grown` (lines 81-92). No general lemma restates them; `RaggedBuilt` computes them for the
  table of the Findings row.
- Integers are unbounded. The source's `usize` additions (`row_idx + rowspan`, line 81) can
  overflow, and memory for huge spans can run out; neither is modelled. Span parsing does
  model the `usize` range exactly.
- Iteration over `HashSet` and `HashMap` in the transposer is modelled as picking elements in
  an arbitrary order. Its result does not depend on that order.
