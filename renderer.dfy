/**
  The renderer: prints the (transposed) grid as an HTML table. Each row is walked
  with a column cursor; a spanning record prints one `<td>` with its spans and jumps
  the cursor past its width, a covered slot prints nothing, an ordinary slot prints
  its escaped text with its attributes, and a slot that was never filled prints an
  empty `<td></td>`.
*/
module Renderer {
  import opened Wrappers
  import opened Text
  import opened Escape
  import opened Table

  // ---------------------------------------------------------------- markup

  /** ` name="value"` with the value escaped; the name is printed as it is. */
  function AttrMarkup(a: Attr): string
  {
    " " + a.name + "=\"" + EscapeAttrValue(a.value) + "\""
  }

  /** The attributes in order, each as `AttrMarkup` prints it. */
  function AttrsMarkup(attrs: seq<Attr>): string
  {
    if attrs == [] then "" else AttrsMarkup(attrs[..|attrs| - 1]) + AttrMarkup(attrs[|attrs| - 1])
  }

  /** The ` rowspan="n"` part, printed only for a span above 1. */
  function RowspanAttr(n: nat): string
  {
    if n > 1 then " rowspan=\"" + DecimalString(n) + "\"" else ""
  }

  /** The ` colspan="n"` part, printed only for a span above 1. */
  function ColspanAttr(n: nat): string
  {
    if n > 1 then " colspan=\"" + DecimalString(n) + "\"" else ""
  }

  /** The single `<td>` printed for a spanning record. */
  function SpanMarkup(m: MergedCell): string
  {
    "<td" + RowspanAttr(m.rowspan) + ColspanAttr(m.colspan) + AttrsMarkup(m.attributes)
    + ">" + EscapeHtml(m.content) + "</td>"
  }

  /** The `<td>` printed for an ordinary cell. */
  function PlainMarkup(attrs: seq<Attr>, content: string): string
  {
    "<td" + AttrsMarkup(attrs) + ">" + EscapeHtml(content) + "</td>"
  }

  const EmptyMarkup: string := "<td></td>"

  /** The attribute list recorded for `p`, or none. */
  function AttrsAt(l: Layout, p: Pos): seq<Attr>
  {
    if p in l.cellAttrs then l.cellAttrs[p] else []
  }

  /** What the renderer prints when its cursor stands at (r, c). */
  function CellAt(l: Layout, r: nat, c: nat): string
  {
    if (r, c) in l.merged then SpanMarkup(l.merged[(r, c)])
    else match SlotAt(l.grid, r, c)
      case Some(content) => if (r, c) in l.occupied then "" else PlainMarkup(AttrsAt(l, (r, c)), content)
      case None => EmptyMarkup
  }

  // ---------------------------------------------------------------- the row walk

  /** Every spanning record is at least one column wide, so the cursor always moves on. */
  predicate ColSpansPositive(l: Layout)
  {
    forall p :: p in l.merged ==> l.merged[p].colspan >= 1
  }

  /** How far the cursor moves from (r, c): a record's width, otherwise one column. */
  function Step(l: Layout, r: nat, c: nat): nat
  {
    if (r, c) in l.merged then l.merged[(r, c)].colspan else 1
  }

  /** What the cursor would print at each column of row `r`. */
  function Printed(l: Layout, r: nat, cols: nat): seq<string>
  {
    seq(cols, (c: int) requires 0 <= c => CellAt(l, r, c))
  }

  /** How far the cursor would move from each column of row `r`. */
  function Steps(l: Layout, r: nat, cols: nat): seq<nat>
  {
    seq(cols, (c: int) requires 0 <= c => Step(l, r, c))
  }

  predicate PositiveSteps(steps: seq<nat>)
  {
    forall k :: 0 <= k < |steps| ==> steps[k] >= 1
  }

  /** The pieces met by a cursor that starts at `c` and moves by `steps`, concatenated. */
  function Jumped(cells: seq<string>, steps: seq<nat>, c: nat): string
    requires |steps| == |cells| && PositiveSteps(steps)
    decreases |cells| - c
  {
    if c >= |cells| then "" else cells[c] + Jumped(cells, steps, c + steps[c])
  }

  /** The pieces from `c` on, every one of them, concatenated. */
  function Joined(cells: seq<string>, c: nat): string
    decreases |cells| - c
  {
    if c >= |cells| then "" else cells[c] + Joined(cells, c + 1)
  }

  lemma StepsPositive(l: Layout, r: nat, cols: nat)
    requires ColSpansPositive(l)
    ensures |Steps(l, r, cols)| == |Printed(l, r, cols)| && PositiveSteps(Steps(l, r, cols))
  {
  }

  /** What the renderer prints for row `r` from cursor `c` up to column `cols`. */
  function RowFrom(l: Layout, r: nat, c: nat, cols: nat): string
    requires ColSpansPositive(l)
  {
    StepsPositive(l, r, cols);
    Jumped(Printed(l, r, cols), Steps(l, r, cols), c)
  }

  /** One move of the cursor: print at (r, c), then go on from `c + Step(l, r, c)`. */
  lemma RowFromStep(l: Layout, r: nat, c: nat, cols: nat)
    requires ColSpansPositive(l) && c < cols
    ensures RowFrom(l, r, c, cols) == CellAt(l, r, c) + RowFrom(l, r, c + Step(l, r, c), cols)
  {
    var cells, steps := Printed(l, r, cols), Steps(l, r, cols);
    StepsPositive(l, r, cols);
    assert cells[c] == CellAt(l, r, c) && steps[c] == Step(l, r, c);
    assert Jumped(cells, steps, c) == cells[c] + Jumped(cells, steps, c + steps[c]);
  }

  /** The first `n` rows, each wrapped in `<tr>` and `</tr>`. */
  function RowsMarkup(l: Layout, n: nat, cols: nat): string
    requires ColSpansPositive(l)
  {
    if n == 0 then "" else RowsMarkup(l, n - 1, cols) + "<tr>" + RowFrom(l, n - 1, 0, cols) + "</tr>"
  }

  /** The whole output for a table with these attributes and `rows` by `cols` slots. */
  function TableMarkup(tableAttrs: seq<Attr>, l: Layout, rows: nat, cols: nat): string
    requires ColSpansPositive(l)
  {
    "<table" + AttrsMarkup(tableAttrs) + ">" + RowsMarkup(l, rows, cols) + "</table>"
  }

  // ---------------------------------------------------------------- the renderer

  /**
    Regrouping a concatenation. The printing methods append to an accumulated output,
    while the functions that specify them nest their pieces the other way; each append
    step calls this to line the two up, which keeps those proofs from searching for the
    regrouping themselves.
  */
  lemma Assoc(a: string, b: string, c: string)
    ensures (a + b) + c == a + (b + c)
  {
  }

  /** Appends the attributes one after the other. */
  method AppendAttrs(html: string, attrs: seq<Attr>) returns (out: string)
    ensures out == html + AttrsMarkup(attrs)
  {
    out := html;
    for i := 0 to |attrs|
      invariant out == html + AttrsMarkup(attrs[..i])
    {
      var pre := attrs[..i + 1];
      assert pre[..|pre| - 1] == attrs[..i] && pre[|pre| - 1] == attrs[i];
      Assoc(html, AttrsMarkup(attrs[..i]), AttrMarkup(attrs[i]));
      out := out + AttrMarkup(attrs[i]);
    }
    assert attrs[..|attrs|] == attrs;
  }

  /** Appends the `<td>` of a spanning record. */
  method AppendSpan(html: string, m: MergedCell) returns (out: string)
    ensures out == html + SpanMarkup(m)
  {
    ghost var done := "<td";
    out := html + "<td";
    if m.rowspan > 1 {
      Assoc(html, done, " rowspan=\"" + DecimalString(m.rowspan) + "\"");
      out := out + (" rowspan=\"" + DecimalString(m.rowspan) + "\"");
    }
    done := done + RowspanAttr(m.rowspan);
    assert out == html + done;
    if m.colspan > 1 {
      Assoc(html, done, " colspan=\"" + DecimalString(m.colspan) + "\"");
      out := out + (" colspan=\"" + DecimalString(m.colspan) + "\"");
    }
    done := done + ColspanAttr(m.colspan);
    assert out == html + done;
    Assoc(html, done, AttrsMarkup(m.attributes));
    out := AppendAttrs(out, m.attributes);
    done := done + AttrsMarkup(m.attributes);
    Assoc(html, done, ">");
    out := out + ">";
    done := done + ">";
    Assoc(html, done, EscapeHtml(m.content));
    out := out + EscapeHtml(m.content);
    done := done + EscapeHtml(m.content);
    Assoc(html, done, "</td>");
    out := out + "</td>";
    done := done + "</td>";
    assert done == SpanMarkup(m);
  }

  /** Appends the `<td>` of an ordinary cell, with its attribute list when it has one. */
  method AppendPlain(html: string, l: Layout, p: Pos, content: string) returns (out: string)
    ensures out == html + PlainMarkup(AttrsAt(l, p), content)
  {
    ghost var done := "<td";
    out := html + "<td";
    Assoc(html, done, AttrsMarkup(AttrsAt(l, p)));
    if p in l.cellAttrs {
      out := AppendAttrs(out, l.cellAttrs[p]);
    } else {
      assert AttrsMarkup(AttrsAt(l, p)) == "";
    }
    done := done + AttrsMarkup(AttrsAt(l, p));
    assert out == html + done;
    Assoc(html, done, ">");
    out := out + ">";
    done := done + ">";
    Assoc(html, done, EscapeHtml(content));
    out := out + EscapeHtml(content);
    done := done + EscapeHtml(content);
    Assoc(html, done, "</td>");
    out := out + "</td>";
    done := done + "</td>";
    assert done == PlainMarkup(AttrsAt(l, p), content);
  }

  /** Prints row `r` of the layout: up to `cols` columns, as the column cursor walks them. */
  method RenderRow(l: Layout, r: nat, cols: nat, html: string) returns (out: string)
    requires r < |l.grid| && ColSpansPositive(l)
    ensures out == html + RowFrom(l, r, 0, cols)
  {
    out := html;
    var c: nat := 0;
    while c < cols
      invariant out + RowFrom(l, r, c, cols) == html + RowFrom(l, r, 0, cols)
      decreases cols - c
    {
      ghost var before := out;
      RowFromStep(l, r, c, cols);
      Assoc(before, CellAt(l, r, c), RowFrom(l, r, c + Step(l, r, c), cols));
      if (r, c) in l.merged {
        var m := l.merged[(r, c)];
        out := AppendSpan(out, m);
        c := c + m.colspan;
      } else if c < |l.grid[r]| && l.grid[r][c].Some? {
        if (r, c) !in l.occupied {
          out := AppendPlain(out, l, (r, c), l.grid[r][c].value);
        }
        c := c + 1;
      } else {
        out := out + EmptyMarkup;
        c := c + 1;
      }
    }
  }

  /**
    Prints the table: its own attributes, then `rows` rows of `cols` columns
    each, then the closing tag.
  */
  method Render(tableAttrs: seq<Attr>, l: Layout, rows: nat, cols: nat) returns (html: string)
    requires rows <= |l.grid| && ColSpansPositive(l)
    ensures html == TableMarkup(tableAttrs, l, rows, cols)
  {
    html := "<table";
    html := AppendAttrs(html, tableAttrs);
    html := html + ">";
    var head := "<table" + AttrsMarkup(tableAttrs) + ">";
    for r := 0 to rows
      invariant html == head + RowsMarkup(l, r, cols)
    {
      var row := RowFrom(l, r, 0, cols);
      html := html + "<tr>";
      Assoc(head, RowsMarkup(l, r, cols), "<tr>");
      html := RenderRow(l, r, cols, html);
      Assoc(head, RowsMarkup(l, r, cols) + "<tr>", row);
      html := html + "</tr>";
      Assoc(head, RowsMarkup(l, r, cols) + "<tr>" + row, "</tr>");
    }
    html := html + "</table>";
  }

  // ---------------------------------------------------------------- properties

  /** `a` occurs in `b` at offset `i`. */
  ghost predicate InfixAt(a: string, b: string, i: nat)
  {
    i + |a| <= |b| && b[i..i + |a|] == a
  }

  /** `a` occurs in `b` at some offset. */
  ghost predicate Infix(a: string, b: string)
  {
    exists i: nat :: InfixAt(a, b, i)
  }

  /**
    The one-column-at-a-time reading of row `r`: every column prints what the cursor
    would print there, the columns inside a span printing nothing.
  */
  function WalkRow(l: Layout, r: nat, cols: nat): string
  {
    Joined(Printed(l, r, cols), 0)
  }

  /** A column inside a span other than its first: no record, covered, and filled. */
  predicate Skipped(l: Layout, p: Pos)
  {
    p !in l.merged && p in l.occupied && SlotAt(l.grid, p.0, p.1).Some?
  }

  /** Every column a spanning record's width jumps over is a skipped column. */
  predicate SpansCovered(l: Layout)
  {
    forall p :: p in l.merged ==> forall c :: p.1 < c < p.1 + l.merged[p].colspan ==> Skipped(l, (p.0, c))
  }

  /** Every piece a move jumps over is empty. */
  predicate SilentJumps(cells: seq<string>, steps: seq<nat>)
    requires |steps| == |cells|
  {
    forall k, k' :: 0 <= k < k' < |cells| && k' < k + steps[k] ==> cells[k'] == ""
  }

  lemma SkippedPrintsNothing(l: Layout, r: nat, c: nat)
    requires Skipped(l, (r, c))
    ensures CellAt(l, r, c) == ""
  {
  }

  lemma {:induction false} JoinedSkips(cells: seq<string>, c: nat, d: nat)
    requires c <= d
    requires forall k :: c <= k < d && k < |cells| ==> cells[k] == ""
    ensures Joined(cells, c) == Joined(cells, d)
    decreases d - c
  {
    if c < d {
      JoinedSkips(cells, c + 1, d);
      if c < |cells| {
        assert Joined(cells, c) == "" + Joined(cells, c + 1);
      }
    }
  }

  /** A cursor that only jumps over empty pieces prints what printing every piece does. */
  lemma {:induction false} JumpedIsJoined(cells: seq<string>, steps: seq<nat>, c: nat)
    requires |steps| == |cells| && PositiveSteps(steps) && SilentJumps(cells, steps)
    ensures Jumped(cells, steps, c) == Joined(cells, c)
    decreases |cells| - c
  {
    if c < |cells| {
      var d := c + steps[c];
      JumpedIsJoined(cells, steps, d);
      forall k | c + 1 <= k < d && k < |cells| ensures cells[k] == "" {
        assert c < k < c + steps[c];
      }
      JoinedSkips(cells, c + 1, d);
      assert Jumped(cells, steps, c) == cells[c] + Jumped(cells, steps, d);
      assert Joined(cells, c) == cells[c] + Joined(cells, c + 1);
    }
  }

  lemma CoveredSilent(l: Layout, r: nat, cols: nat)
    requires ColSpansPositive(l) && SpansCovered(l)
    ensures |Steps(l, r, cols)| == |Printed(l, r, cols)| && SilentJumps(Printed(l, r, cols), Steps(l, r, cols))
  {
    var cells, steps := Printed(l, r, cols), Steps(l, r, cols);
    forall k, k' | 0 <= k < k' < |cells| && k' < k + steps[k] ensures cells[k'] == "" {
      assert steps[k] == Step(l, r, k);
      assert (r, k) in l.merged;
      assert Skipped(l, (r, k'));
      SkippedPrintsNothing(l, r, k');
    }
  }

  /**
    When spans are covered, jumping over a record's width prints what visiting each
    column does: the cursor walk equals the column-by-column reading.
  */
  lemma RowFromIsWalk(l: Layout, r: nat, cols: nat)
    requires ColSpansPositive(l) && SpansCovered(l)
    ensures RowFrom(l, r, 0, cols) == WalkRow(l, r, cols)
  {
    StepsPositive(l, r, cols);
    CoveredSilent(l, r, cols);
    JumpedIsJoined(Printed(l, r, cols), Steps(l, r, cols), 0);
  }

  lemma InfixAppend(a: string, x: string, y: string)
    ensures Infix(a, y) ==> Infix(a, x + y)
    ensures Infix(a, x) ==> Infix(a, x + y)
  {
    if Infix(a, y) {
      var i: nat :| InfixAt(a, y, i);
      assert (x + y)[|x| + i..|x| + i + |a|] == y[i..i + |a|];
      assert InfixAt(a, x + y, |x| + i);
    }
    if Infix(a, x) {
      var i: nat :| InfixAt(a, x, i);
      assert (x + y)[i..i + |a|] == x[i..i + |a|];
      assert InfixAt(a, x + y, i);
    }
  }

  lemma InfixTrans(a: string, b: string, c: string)
    requires Infix(a, b) && Infix(b, c)
    ensures Infix(a, c)
  {
    var i: nat :| InfixAt(a, b, i);
    var j: nat :| InfixAt(b, c, j);
    forall k | 0 <= k < |a| ensures c[j + i + k] == a[k] {
      assert c[j..j + |b|][i + k] == b[i + k];
      assert b[i..i + |a|][k] == a[k];
    }
    assert c[j + i..j + i + |a|] == a;
    assert InfixAt(a, c, j + i);
  }

  /** Every piece from `c` on occurs in their concatenation. */
  lemma {:induction false} PieceInJoined(cells: seq<string>, c: nat, k: nat)
    requires c <= k < |cells|
    ensures Infix(cells[k], Joined(cells, c))
    decreases |cells| - c
  {
    var w := Joined(cells, c);
    if c == k {
      assert w == cells[k] + Joined(cells, c + 1);
      assert w[0..|cells[k]|] == cells[k];
      assert InfixAt(cells[k], w, 0);
    } else {
      PieceInJoined(cells, c + 1, k);
      InfixAppend(cells[k], cells[c], Joined(cells, c + 1));
    }
  }

  /** Every row below `n` appears in the first `n` rows, between `<tr>` and `</tr>`. */
  lemma {:induction false} RowInRows(l: Layout, r: nat, n: nat, cols: nat)
    requires ColSpansPositive(l) && r < n
    ensures Infix("<tr>" + RowFrom(l, r, 0, cols) + "</tr>", RowsMarkup(l, n, cols))
  {
    var row := "<tr>" + RowFrom(l, r, 0, cols) + "</tr>";
    var k := RowsMarkup(l, n - 1, cols);
    var last := "<tr>" + RowFrom(l, n - 1, 0, cols) + "</tr>";
    Assoc(k + "<tr>", RowFrom(l, n - 1, 0, cols), "</tr>");
    Assoc(k, "<tr>", RowFrom(l, n - 1, 0, cols) + "</tr>");
    Assoc("<tr>", RowFrom(l, n - 1, 0, cols), "</tr>");
    assert RowsMarkup(l, n, cols) == k + last;
    if r == n - 1 {
      assert (k + row)[|k|..|k| + |row|] == row;
      assert InfixAt(row, k + row, |k|);
    } else {
      RowInRows(l, r, n - 1, cols);
      InfixAppend(row, k, last);
    }
  }

  /**
    With spans covered, what the cursor prints at any position (r, c) of the
    `rows` by `cols` area appears in the table's output.
  */
  lemma CellInTable(tableAttrs: seq<Attr>, l: Layout, rows: nat, cols: nat, r: nat, c: nat)
    requires ColSpansPositive(l) && SpansCovered(l)
    requires r < rows && c < cols
    ensures Infix(CellAt(l, r, c), TableMarkup(tableAttrs, l, rows, cols))
  {
    var cell := CellAt(l, r, c);
    RowFromIsWalk(l, r, cols);
    PieceInJoined(Printed(l, r, cols), 0, c);
    assert Printed(l, r, cols)[c] == cell;
    var row := RowFrom(l, r, 0, cols);
    InfixAppend(cell, "<tr>", row);
    InfixAppend(cell, "<tr>" + row, "</tr>");
    RowInRows(l, r, rows, cols);
    InfixTrans(cell, "<tr>" + row + "</tr>", RowsMarkup(l, rows, cols));
    var head := "<table" + AttrsMarkup(tableAttrs) + ">";
    InfixAppend(cell, head, RowsMarkup(l, rows, cols));
    InfixAppend(cell, head + RowsMarkup(l, rows, cols), "</table>");
  }

  /**
    A printed attribute is ` name="v"` where `v` has no double quote (so it cannot
    end the attribute early) and entity-decodes to the attribute's value.
  */
  lemma AttrMarkupReadsBack(a: Attr)
    ensures exists v :: AttrMarkup(a) == " " + a.name + "=\"" + v + "\"" && '"' !in v && UnescapeHtml(v) == a.value
  {
    var v := EscapeAttrValue(a.value);
    UnescapeEscapeAttrValue(a.value);
    EscapeAttrSafe(a.value);
    assert AttrMarkup(a) == " " + a.name + "=\"" + v + "\"";
  }

  /**
    An ordinary cell prints as `<td`, its attributes, `>`, a text without `<` (so it
    cannot open a tag) that entity-decodes to the cell's text, and `</td>`.
  */
  lemma PlainMarkupReadsBack(attrs: seq<Attr>, content: string)
    ensures exists t :: PlainMarkup(attrs, content) == "<td" + AttrsMarkup(attrs) + ">" + t + "</td>"
                        && '<' !in t && UnescapeHtml(t) == content
  {
    var t := EscapeHtml(content);
    UnescapeEscapeHtml(content);
    EscapeHtmlSafe(content);
    assert PlainMarkup(attrs, content) == "<td" + AttrsMarkup(attrs) + ">" + t + "</td>";
  }
}
