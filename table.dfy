/**
  The data the transposer works on: the already-parsed input table (attributes and
  rows of cells), the dense grid of slots, the spanning-cell record (`MergedCell`)
  and the three side tables that travel with the grid.
*/
module Table {
  import opened Wrappers
  import opened Text

  /** One attribute of an element, as the HTML parser delivers it. */
  datatype Attr = Attr(name: string, value: string)

  /**
    A `<td>` or `<th>` element: its attributes (including any `rowspan` and `colspan`)
    and its text, the concatenation of all text below it in document order.
  */
  datatype Cell = Cell(attrs: seq<Attr>, text: string)

  type Row = seq<Cell>

  /** The first `<table>` of the document: its own attributes and its `<tr>` rows in order. */
  datatype HtmlTable = HtmlTable(attrs: seq<Attr>, rows: seq<Row>)

  /** A grid slot: `None` is "no cell yet", `Some("")` a span placeholder, `Some(t)` a cell's text. */
  type Slot = Option<string>

  type Grid = seq<seq<Slot>>

  /** A (row, column) position, both 0-based. */
  type Pos = (nat, nat)

  /** What is kept of a cell that spans more than one slot. */
  datatype MergedCell = MergedCell(rowspan: nat, colspan: nat, content: string, attributes: seq<Attr>)

  /**
    The grid with its side tables: spanning-cell records and non-span attribute lists,
    both keyed by anchor, and the positions covered by some span other than its anchor.
  */
  datatype Layout = Layout(
    grid: Grid,
    merged: map<Pos, MergedCell>,
    cellAttrs: map<Pos, seq<Attr>>,
    occupied: set<Pos>)

  // ---------------------------------------------------------------- attributes

  /** The value of the first attribute called `name` (`Element::attr`). */
  function AttrValue(attrs: seq<Attr>, name: string): (r: Option<string>)
    ensures r.None? <==> forall k :: 0 <= k < |attrs| ==> attrs[k].name != name
    ensures r.Some? ==> exists k :: 0 <= k < |attrs| && attrs[k] == Attr(name, r.value)
  {
    if attrs == [] then None
    else if attrs[0].name == name then Some(attrs[0].value)
    else
      var r := AttrValue(attrs[1..], name);
      assert forall k :: 1 <= k < |attrs| ==> attrs[k] == attrs[1..][k - 1];
      r
  }

  predicate IsSpanName(name: string)
  {
    name == "rowspan" || name == "colspan"
  }

  /** The attributes other than `rowspan` and `colspan`, in their original order. */
  function OtherAttrs(attrs: seq<Attr>): (r: seq<Attr>)
    ensures forall a :: a in r <==> a in attrs && !IsSpanName(a.name)
    ensures |r| <= |attrs|
  {
    if attrs == [] then []
    else
      var rest := OtherAttrs(attrs[1..]);
      assert forall a :: a in attrs <==> a == attrs[0] || a in attrs[1..];
      (if IsSpanName(attrs[0].name) then [] else [attrs[0]]) + rest
  }

  /** A span attribute read as `usize`, 1 when it is absent or does not parse. */
  function Span(attrs: seq<Attr>, name: string): nat
  {
    match AttrValue(attrs, name)
    case None => 1
    case Some(v) =>
      match ParseUsize(v)
      case None => 1
      case Some(n) => n
  }

  function RowSpan(cell: Cell): nat
  {
    Span(cell.attrs, "rowspan")
  }

  function ColSpan(cell: Cell): nat
  {
    Span(cell.attrs, "colspan")
  }

  /**
    The span read from a cell is 1 when the attribute is missing or is not a `usize`
    numeral, and is the numeral's value otherwise; it never exceeds `usize`'s range.
  */
  lemma SpanDefaults(attrs: seq<Attr>, name: string)
    ensures Span(attrs, name) <= UsizeMax
    ensures (forall k :: 0 <= k < |attrs| ==> attrs[k].name != name) ==> Span(attrs, name) == 1
    ensures AttrValue(attrs, name).Some? && ParseUsize(AttrValue(attrs, name).value).None? ==> Span(attrs, name) == 1
    ensures AttrValue(attrs, name).Some? && ParseUsize(AttrValue(attrs, name).value).Some? ==>
              Span(attrs, name) == ParseUsize(AttrValue(attrs, name).value).value
  {
  }

  /** A span printed by the renderer is read back as the same span. */
  lemma SpanReadsPrinted(attrs: seq<Attr>, name: string, n: nat)
    requires 0 < |attrs| && attrs[0] == Attr(name, DecimalString(n)) && n <= UsizeMax
    ensures Span(attrs, name) == n
  {
    DecimalStringReadsBack(n);
  }

  predicate Spanning(cell: Cell)
  {
    RowSpan(cell) > 1 || ColSpan(cell) > 1
  }

  /** No cell of the table has a span attribute that parses to 0. */
  predicate SpansPositive(rows: seq<Row>)
  {
    forall i, j :: 0 <= i < |rows| && 0 <= j < |rows[i]| ==> RowSpan(rows[i][j]) >= 1 && ColSpan(rows[i][j]) >= 1
  }

  // ---------------------------------------------------------------- grid

  predicate InGrid(grid: Grid, p: Pos)
  {
    p.0 < |grid| && p.1 < |grid[p.0]|
  }

  /** The slot at (r, c), `None` past the end of the row or the grid (`Vec::get`). */
  function SlotAt(grid: Grid, r: nat, c: nat): Slot
  {
    if r < |grid| && c < |grid[r]| then grid[r][c] else None
  }

  /** The rectangle of positions a cell anchored at `a` covers. */
  predicate InSpan(p: Pos, a: Pos, rowspan: nat, colspan: nat)
  {
    a.0 <= p.0 < a.0 + rowspan && a.1 <= p.1 < a.1 + colspan
  }

  /** Row lengths never increase from top to bottom (so row 0 is the longest). */
  predicate NonIncreasing(grid: Grid)
  {
    forall r, r' :: 0 <= r < r' < |grid| ==> |grid[r]| >= |grid[r']|
  }
}
