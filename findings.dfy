/** The border row under a heading row whose cells span several columns. The
    `tableRow` rule prints each border cell with `cell`, which also applies
    `handleColSpan`: a heading cell with `colspan` 2 gets its border followed by an
    empty cell, and the loop still prints one border per column after it. The border
    row then has more cells than the table has columns, and one of them is blank, so
    a GFM reader does not take it as a delimiter row. The rules in `TableRules` keep
    that behaviour, as the code has it; this module shows it on a concrete table and
    states the delimiter row that is evidently meant. */
module ColspanBorder {
  import opened JsText
  import opened Dom
  import opened Alignment
  import opened Cells
  import opened TableStructure
  import opened TableRules

  /** The border row the heading row is meant to get: one delimiter cell per column
      alignment, whatever the heading cells span. */
  function IntendedBorderCells(aligns: seq<string>): string
    requires AllAlignKeys(aligns)
  {
    if aligns == [] then "" else DelimiterRow(aligns)
  }

  /** The intended border row is a GFM delimiter row with one cell per column: one
      line, with one delimiter per column plus the opening one. */
  lemma IntendedBorderShape(aligns: seq<string>)
    requires AllAlignKeys(aligns) && aligns != []
    ensures var b := IntendedBorderCells(aligns);
      && Delimiters(b) == |aligns| + 1 && '\n' !in b && IsDividerLine(b)
  {
    DelimiterRowShape(aligns);
  }

  /** For a table, the intended border has exactly `tableColCount + 1` delimiters. */
  lemma IntendedHeadingBorder(doc: Tree, t: NodeId)
    requires MaxChildCount(doc, Rows(doc, t)) > 0
    ensures var colCount := MaxChildCount(doc, Rows(doc, t));
      var b := IntendedBorderCells(ColumnAlignments(doc, t, colCount));
      Delimiters(b) == colCount + 1 && IsDividerLine(b)
  {
    var colCount := MaxChildCount(doc, Rows(doc, t));
    IntendedBorderShape(ColumnAlignments(doc, t, colCount));
  }

  /** A border cell for a cell that spans one column is a delimiter cell, after the
      opening pipe in the first column. */
  lemma PlainBorderCell(doc: Tree, a: string, c: Option<NodeId>, i: nat)
    requires IsAlignKey(a)
    requires c.Some? ==> ExtraColumns(NodeAt(doc, c.value).colspan) == 0
    ensures i == 0 ==> CellText(doc, GetBorder(a), c, Some(i)) == "|" + HeaderCell(GetBorder(a))
    ensures i > 0 ==> CellText(doc, GetBorder(a), c, Some(i)) == HeaderCell(GetBorder(a))
  {
    BorderIsPlainText(a);
    PlainCell(doc, GetBorder(a), c, i);
  }

  /** A cell whose text needs no cleaning up and that spans one column. */
  lemma PlainCell(doc: Tree, b: string, c: Option<NodeId>, i: nat)
    requires CellBody(b) == b
    requires c.Some? ==> ExtraColumns(NodeAt(doc, c.value).colspan) == 0
    ensures CellText(doc, b, c, Some(i)) == (if i == 0 then "|" else "") + HeaderCell(b)
  {
    NoSpanCells(doc, c);
    UnspannedCell(doc, b, c, i);
    if i == 0 {
      FirstColumnCell(b);
    } else {
      assert "" + HeaderCell(b) == HeaderCell(b);
    }
  }

  /** The first column's cell is the opening pipe and a delimiter cell. */
  lemma FirstColumnCell(b: string)
    ensures "| " + b + " |" == "|" + HeaderCell(b)
  {
    assert "| " == "|" + " ";
    ConcatAssoc("|", " ", b);
    ConcatAssoc("|", " " + b, " |");
  }

  /** A cell that spans one column adds no empty cells. */
  lemma NoSpanCells(doc: Tree, c: Option<NodeId>)
    requires c.Some? ==> ExtraColumns(NodeAt(doc, c.value).colspan) == 0
    ensures SpanCells(doc, c) == []
  {
  }

  /** A cell without empty cells is its prefix, its body and the closing pipe. */
  lemma UnspannedCell(doc: Tree, b: string, c: Option<NodeId>, i: nat)
    requires CellBody(b) == b && SpanCells(doc, c) == []
    ensures CellText(doc, b, c, Some(i)) == (if i == 0 then "| " else " ") + b + " |"
  {
    assert CellIndex(doc, c, Some(i)) == Some(i);
    assert CellBody(b) + SpanCells(doc, c) == b;
  }

  /** Where no heading cell spans more than one column, the border the code prints is
      the intended one. */
  lemma {:induction false} BorderCellsWithoutSpans(doc: Tree, aligns: seq<string>, tr: NodeId)
    requires AllAlignKeys(aligns)
    requires forall i | 0 <= i < |aligns| && i < |Kids(doc, tr)| :: ExtraColumns(NodeAt(doc, Kids(doc, tr)[i]).colspan) == 0
    ensures BorderCells(doc, aligns, tr) == IntendedBorderCells(aligns)
    decreases |aligns|
  {
    if aligns != [] {
      var n := |aligns|;
      var front := aligns[..n - 1];
      var a := aligns[n - 1];
      assert aligns == front + [a];
      assert AllAlignKeys(front) by {
        assert forall i | 0 <= i < n - 1 :: front[i] == aligns[i];
      }
      BorderCellsWithoutSpans(doc, front, tr);
      var c := ChildAt(doc, tr, n - 1);
      assert c.Some? ==> ExtraColumns(NodeAt(doc, c.value).colspan) == 0;
      BorderCellsStep(doc, front, tr, a, c);
      PlainBorderCell(doc, a, c, n - 1);
      var cell := CellText(doc, GetBorder(a), c, Some(n - 1));
      if n == 1 {
        IntendedBorderFirst(front, a);
        assert BorderCells(doc, front, tr) + cell == cell by {
          assert BorderCells(doc, front, tr) == [];
        }
      } else {
        IntendedBorderNext(front, a);
      }
    }
  }

  /** The intended border of one column is the opening pipe and its delimiter cell. */
  lemma IntendedBorderFirst(front: seq<string>, a: string)
    requires front == [] && IsAlignKey(a)
    ensures AllAlignKeys(front + [a])
    ensures IntendedBorderCells(front + [a]) == "|" + HeaderCell(GetBorder(a))
  {
    DelimiterRowStep(front, a);
  }

  /** One more column adds its delimiter cell to the intended border. */
  lemma IntendedBorderNext(front: seq<string>, a: string)
    requires front != [] && AllAlignKeys(front) && IsAlignKey(a)
    ensures AllAlignKeys(front + [a])
    ensures IntendedBorderCells(front + [a]) == IntendedBorderCells(front) + HeaderCell(GetBorder(a))
  {
    DelimiterRowStep(front, a);
  }

  /** As written: under a heading row whose first cell spans two columns and which has
      no second cell, the border for two unaligned columns holds three delimiter cells,
      the middle one blank: four pipes, where the heading row and the intended border
      have three. */
  lemma SpanningCellBorder(doc: Tree, tr: NodeId, aligns: seq<string>)
    requires |aligns| == 2 && aligns[0] == "" && aligns[1] == ""
    requires ChildAt(doc, tr, 0).Some? && NodeAt(doc, ChildAt(doc, tr, 0).value).colspan == Some(2)
    requires ChildAt(doc, tr, 1).None?
    ensures AllAlignKeys(aligns)
    ensures BorderCells(doc, aligns, tr) == "| --- |     | --- |"
    ensures Delimiters(BorderCells(doc, aligns, tr)) == 4
    ensures Delimiters(IntendedBorderCells(aligns)) == 3
  {
    SpanningCellBorderText(doc, tr, aligns);
    SpanningCellColumns(doc, tr, aligns);
    IntendedBorderShape(aligns);
  }

  /** The heading row itself prints as two columns: its one cell, widened by one
      empty cell, holds three delimiters, whatever its content. */
  lemma SpanningHeadingCell(doc: Tree, tr: NodeId, content: string)
    requires ChildAt(doc, tr, 0).Some? && NodeAt(doc, ChildAt(doc, tr, 0).value).colspan == Some(2)
    ensures Delimiters(CellText(doc, content, ChildAt(doc, tr, 0), Some(0))) == 3
  {
    assert ExtraColumns(NodeAt(doc, ChildAt(doc, tr, 0).value).colspan) == 1;
    IndexedCellDelimiters(doc, content, ChildAt(doc, tr, 0), 0);
  }

  /** The border cells of `SpanningCellBorder` span three columns. */
  lemma SpanningCellColumns(doc: Tree, tr: NodeId, aligns: seq<string>)
    requires |aligns| == 2 && AllAlignKeys(aligns)
    requires ChildAt(doc, tr, 0).Some? && NodeAt(doc, ChildAt(doc, tr, 0).value).colspan == Some(2)
    requires ChildAt(doc, tr, 1).None?
    ensures Delimiters(BorderCells(doc, aligns, tr)) == 4
  {
    assert ExtraColumns(NodeAt(doc, ChildAt(doc, tr, 0).value).colspan) == 1;
    assert BorderColumns(doc, tr, 1) == 2;
    assert BorderColumns(doc, tr, 2) == 3;
    BorderCellsShape(doc, aligns, tr);
  }

  /** The border cells of `SpanningCellBorder`, written out. */
  lemma SpanningCellBorderText(doc: Tree, tr: NodeId, aligns: seq<string>)
    requires |aligns| == 2 && aligns[0] == "" && aligns[1] == ""
    requires ChildAt(doc, tr, 0).Some? && NodeAt(doc, ChildAt(doc, tr, 0).value).colspan == Some(2)
    requires ChildAt(doc, tr, 1).None?
    ensures AllAlignKeys(aligns)
    ensures BorderCells(doc, aligns, tr) == "| --- |     | --- |"
  {
    assert AllAlignKeys(aligns);
    var cell0 := CellText(doc, GetBorder(aligns[0]), ChildAt(doc, tr, 0), Some(0));
    var cell1 := CellText(doc, GetBorder(aligns[1]), ChildAt(doc, tr, 1), Some(1));
    SpanningBorderCell0(doc, tr, aligns[0]);
    LaterBorderCell(doc, tr, aligns[1], 1);
    TwoBorderCells(doc, tr, aligns);
    SpanningRowText(cell0, GetBorder(aligns[1]), cell1, BorderCells(doc, aligns, tr));
  }

  /** A border row of two columns is the two cells `cell` prints. */
  lemma TwoBorderCells(doc: Tree, tr: NodeId, aligns: seq<string>)
    requires |aligns| == 2 && AllAlignKeys(aligns)
    ensures BorderCells(doc, aligns, tr)
      == CellText(doc, GetBorder(aligns[0]), ChildAt(doc, tr, 0), Some(0))
      + CellText(doc, GetBorder(aligns[1]), ChildAt(doc, tr, 1), Some(1))
  {
    var front := aligns[..1];
    assert front + [aligns[1]] == aligns;
    OneBorderCell(doc, tr, front);
    BorderCellsStep(doc, front, tr, aligns[1], ChildAt(doc, tr, 1));
  }

  /** A border row of one column is the cell `cell` prints. */
  lemma OneBorderCell(doc: Tree, tr: NodeId, aligns: seq<string>)
    requires |aligns| == 1 && AllAlignKeys(aligns)
    ensures BorderCells(doc, aligns, tr) == CellText(doc, GetBorder(aligns[0]), ChildAt(doc, tr, 0), Some(0))
  {
    var e: seq<string> := [];
    assert e + [aligns[0]] == aligns;
    BorderCellsStep(doc, e, tr, aligns[0], ChildAt(doc, tr, 0));
    assert BorderCells(doc, e, tr) == [];
  }

  /** The border cell under the spanning heading cell. */
  lemma SpanningBorderCell0(doc: Tree, tr: NodeId, a: string)
    requires a == ""
    requires ChildAt(doc, tr, 0).Some? && NodeAt(doc, ChildAt(doc, tr, 0).value).colspan == Some(2)
    ensures CellText(doc, GetBorder(a), ChildAt(doc, tr, 0), Some(0)) == "| --- |     |"
  {
    var c0 := ChildAt(doc, tr, 0);
    var b := GetBorder(a);
    assert b == "---";
    BorderIsPlainText(a);
    OneSpanCell(doc, c0);
    FirstCellText(doc, b, c0, " |    ");
    SpanningCellText(CellText(doc, b, c0, Some(0)));
  }

  /** A border cell after the first column, which has no heading cell. */
  lemma LaterBorderCell(doc: Tree, tr: NodeId, a: string, i: nat)
    requires IsAlignKey(a) && i > 0 && ChildAt(doc, tr, i).None?
    ensures CellText(doc, GetBorder(a), ChildAt(doc, tr, i), Some(i)) == " " + GetBorder(a) + " |"
  {
    BorderIsPlainText(a);
    LaterCellText(doc, GetBorder(a), i);
  }

  /** The two border cells side by side. The string equality is kept apart from the
      facts about `BorderCells`, which the solver would otherwise unfold against it. */
  lemma SpanningRowText(cell0: string, b: string, cell1: string, row: string)
    requires cell0 == "| --- |     |" && b == "---" && cell1 == " " + b + " |" && row == cell0 + cell1
    ensures row == "| --- |     | --- |"
  {
  }

  /** The first cell of a row, for a plain-text content and given empty cells. */
  lemma FirstCellText(doc: Tree, b: string, node: Option<NodeId>, span: string)
    requires CellBody(b) == b && SpanCells(doc, node) == span
    ensures CellText(doc, b, node, Some(0)) == "| " + (b + span) + " |"
  {
  }

  /** A later cell of a row, without a node, for a plain-text content. */
  lemma LaterCellText(doc: Tree, b: string, i: nat)
    requires CellBody(b) == b && i > 0
    ensures CellText(doc, b, None, Some(i)) == " " + b + " |"
  {
    assert b + "" == b;
  }

  /** A `colspan` of 2 adds one empty cell. */
  lemma OneSpanCell(doc: Tree, node: Option<NodeId>)
    requires node.Some? && NodeAt(doc, node.value).colspan == Some(2)
    ensures SpanCells(doc, node) == " |    "
  {
    assert Repeat(" ", 3) == "   " by {
      assert Repeat(" ", 1) == " ";
      assert Repeat(" ", 2) == "  ";
    }
    var span := EmptySpanCell(" ");
    assert span == " |    ";
    assert Repeat(span, 1) == " |    " by {
      assert Repeat(span, 0) == [];
    }
  }

  /** The first border cell, written out. */
  lemma SpanningCellText(x: string)
    requires x == "| " + ("---" + " |    ") + " |"
    ensures x == "| --- |     |"
  {
    assert "---" + " |    " == "--- |    ";
    assert "| " + "--- |    " == "| --- |    ";
    assert "| --- |    " + " |" == "| --- |     |";
  }

  /** The DOM of a two-column table whose heading row is one `th` with `colspan` 2,
      `<table><tr><th colspan=2>A</th></tr><tr><td>1</td><td>2</td></tr></table>`: the
      HTML parser puts both rows in an implied `tbody`, and every element without a
      `colspan` attribute reads as 1. */
  const SpanningHeading: Tree := Tree([
    Node("TABLE", "", "", Some(1), "A12", "", None, [1]),
    Node("TBODY", "", "", Some(1), "A12", "", Some(0), [2, 4]),
    Node("TR", "", "", Some(1), "A", "", Some(1), [3]),
    Node("TH", "", "", Some(2), "A", "", Some(2), []),
    Node("TR", "", "", Some(1), "12", "", Some(1), [5, 6]),
    Node("TD", "", "", Some(1), "1", "", Some(4), []),
    Node("TD", "", "", Some(1), "2", "", Some(4), [])])

  /** The table above meets `SpanningCellBorder`: its first row is a heading row (the
      first child of the first `tbody`) whose only cell spans two columns, and its
      second row has two cells. */
  lemma SpanningHeadingTable()
    ensures IsHeadingRow(SpanningHeading, 2) && |Kids(SpanningHeading, 4)| == 2
    ensures ChildAt(SpanningHeading, 2, 0) == Some(3) && ChildAt(SpanningHeading, 2, 1).None?
    ensures NodeAt(SpanningHeading, 3).colspan == Some(2)
  {
    SpanningHeadingRow();
  }

  /** The witness's first row is a heading row. */
  lemma SpanningHeadingRow()
    ensures IsHeadingRow(SpanningHeading, 2)
  {
    var D := SpanningHeading;
    assert IndexOf(Kids(D, 0), 1) == 0;
    assert PreviousSibling(D, 1) == None;
    assert IsFirstTbody(D, 1);
    assert FirstChild(D, 1) == Some(2);
    assert AllHeaderCells(D, 2);
  }

  /** As written, end to end: the `tableRow` rule prints the witness's heading row
      followed by a border of four pipes, one more than the row's three. */
  lemma SpanningHeadingRowOutput(h: string)
    ensures WF(SpanningHeading)
    ensures RowRuleOutput(SpanningHeading, h, 2) == "\n" + h + "\n| --- |     | --- |"
  {
    SpanningHeadingNotSkipped();
    SpanningHeadingRow();
    SpanningHeadingAligns();
    SpanningHeadingTable();
    SpanningRowOutput(SpanningHeading, 0, 2, h);
  }

  /** The `tableRow` rule on a heading row whose first cell spans two columns, in a
      table of two unaligned columns. */
  lemma SpanningRowOutput(doc: Tree, t: NodeId, tr: NodeId, h: string)
    requires WF(doc) && tr < |doc.nodes| && ParentTable(doc, Some(tr)) == Some(t)
    requires !SkipDecision(doc, Some(t)) && IsHeadingRow(doc, tr)
    requires MaxChildCount(doc, Rows(doc, t)) == 2
    requires var a := ColumnAlignments(doc, t, 2); a[0] == "" && a[1] == ""
    requires ChildAt(doc, tr, 0).Some? && NodeAt(doc, ChildAt(doc, tr, 0).value).colspan == Some(2)
    requires ChildAt(doc, tr, 1).None?
    ensures RowRuleOutput(doc, h, tr) == "\n" + h + "\n| --- |     | --- |"
  {
    var aligns := ColumnAlignments(doc, t, 2);
    HeadingRowOutput(doc, t, tr, h);
    SpanningCellBorder(doc, tr, aligns);
    SpanningRowLines(h, BorderCells(doc, aligns, tr), RowRuleOutput(doc, h, tr));
  }

  /** The heading row and the border on two lines, written out. */
  lemma SpanningRowLines(h: string, b: string, out: string)
    requires b == "| --- |     | --- |" && out == "\n" + (h + ("\n" + b))
    ensures out == "\n" + h + "\n| --- |     | --- |"
  {
    ConcatAssoc("\n", h, "\n" + b);
  }

  /** The witness is a well-formed tree. */
  lemma SpanningHeadingWF()
    ensures WF(SpanningHeading)
  {
    var D := SpanningHeading;
    assert |D.nodes| == 7;
    TableShapeWF(D);
  }

  /** Any arena with the witness's parent and child links is well formed. */
  lemma TableShapeWF(doc: Tree)
    requires |doc.nodes| == 7
    requires doc.nodes[0].parent == None && doc.nodes[0].children == [1]
    requires doc.nodes[1].parent == Some(0) && doc.nodes[1].children == [2, 4]
    requires doc.nodes[2].parent == Some(1) && doc.nodes[2].children == [3]
    requires doc.nodes[3].parent == Some(2) && doc.nodes[3].children == []
    requires doc.nodes[4].parent == Some(1) && doc.nodes[4].children == [5, 6]
    requires doc.nodes[5].parent == Some(4) && doc.nodes[5].children == []
    requires doc.nodes[6].parent == Some(4) && doc.nodes[6].children == []
    ensures WF(doc)
  {
    forall n, k | 0 <= n < 7 && 0 <= k < |doc.nodes[n].children|
      ensures n < doc.nodes[n].children[k] < 7 && doc.nodes[doc.nodes[n].children[k]].parent == Some(n)
    {
      assert n == 1 || n == 4 || k == 0;
    }
    forall n | 0 <= n < 7 && doc.nodes[n].parent.Some?
      ensures doc.nodes[n].parent.value < n && n in doc.nodes[doc.nodes[n].parent.value].children
    {
      assert n in {1, 2, 3, 4, 5, 6};
    }
  }

  /** The rows of the witness: both `tr` of its `tbody`. */
  lemma SpanningHeadingRows()
    ensures Rows(SpanningHeading, 0) == [2, 4]
  {
    var D := SpanningHeading;
    OneBodyRows(D, 0, 1, 2, 4);
  }

  /** A table whose only child is a `tbody` of two `tr` has those two rows. */
  lemma OneBodyRows(doc: Tree, t: NodeId, b: NodeId, r0: NodeId, r1: NodeId)
    requires Kids(doc, t) == [b] && Name(doc, b) == "TBODY" && Kids(doc, b) == [r0, r1]
    requires Name(doc, r0) == "TR" && Name(doc, r1) == "TR"
    ensures Rows(doc, t) == [r0, r1]
  {
    var kids := Kids(doc, t);
    assert kids[1..] == [];
    assert SectionRows(doc, kids, "THEAD") == [];
    assert SectionRows(doc, kids, "TFOOT") == [];
    var rows := Kids(doc, b);
    assert rows[1..] == [r1] && rows[1..][1..] == [];
    assert TrKids(doc, rows[1..]) == [r1];
    assert TrKids(doc, rows) == [r0, r1];
    assert BodyRows(doc, kids) == [r0, r1];
  }

  /** The witness's first row belongs to its table, which is neither skipped nor
      nested. */
  lemma SpanningHeadingNotSkipped()
    ensures WF(SpanningHeading)
    ensures ParentTable(SpanningHeading, Some(2)) == Some(0)
    ensures !SkipDecision(SpanningHeading, Some(0))
  {
    SpanningHeadingWF();
    var D := SpanningHeading;
    assert NearestAncestorNamed(D, 1, "TABLE") == Some(0);
    SpanningHeadingRows();
    SpanningHeadingFlat();
  }

  /** The witness holds no table below its own. */
  lemma SpanningHeadingFlat()
    ensures WF(SpanningHeading) && !NodeContainsTable(SpanningHeading, 0)
  {
    SpanningHeadingWF();
    var D := SpanningHeading;
    NodeContainsTableIff(D, 0);
    forall d: NodeId | 0 < d < 7 ensures Name(D, d) != "TABLE" {
      assert d in {1, 2, 3, 4, 5, 6};
    }
  }

  /** A column whose cells carry no alignment is unaligned. */
  lemma {:induction false} UnalignedVotes(aligns: seq<string>)
    requires forall i | 0 <= i < |aligns| :: aligns[i] == ""
    ensures ColumnWinner(aligns) == ""
    decreases |aligns|
  {
    if aligns != [] {
      UnalignedVotes(aligns[..|aligns| - 1]);
    }
  }

  /** The witness has two columns, and neither is aligned. */
  lemma SpanningHeadingAligns()
    ensures MaxChildCount(SpanningHeading, Rows(SpanningHeading, 0)) == 2
    ensures var a := ColumnAlignments(SpanningHeading, 0, 2); a[0] == "" && a[1] == ""
  {
    var D := SpanningHeading;
    SpanningHeadingRows();
    assert |Kids(D, 2)| == 1 && |Kids(D, 4)| == 2;
    forall n: NodeId ensures NodeAt(D, n).align == "" && NodeAt(D, n).textAlign == "" {
      assert n >= 7 || n in {0, 1, 2, 3, 4, 5, 6};
    }
    UnalignedTwoColumns(D, 0, 2, 4);
  }

  /** A table of two rows, of one and two children, in a tree without alignment
      attributes or styles, has two unaligned columns. */
  lemma UnalignedTwoColumns(doc: Tree, t: NodeId, r0: NodeId, r1: NodeId)
    requires Rows(doc, t) == [r0, r1] && |Kids(doc, r0)| == 1 && |Kids(doc, r1)| == 2
    requires forall n: NodeId :: NodeAt(doc, n).align == "" && NodeAt(doc, n).textAlign == ""
    ensures MaxChildCount(doc, Rows(doc, t)) == 2
    ensures var a := ColumnAlignments(doc, t, 2); a[0] == "" && a[1] == ""
  {
    UnalignedCells(doc, Rows(doc, t), 0);
    UnalignedCells(doc, Rows(doc, t), 1);
    TwoColumns(doc, t, r0, r1);
  }

  /** A table of two rows, of one and two children, has two columns, unaligned when
      each column is. */
  lemma TwoColumns(doc: Tree, t: NodeId, r0: NodeId, r1: NodeId)
    requires Rows(doc, t) == [r0, r1] && |Kids(doc, r0)| == 1 && |Kids(doc, r1)| == 2
    requires ColumnAlignment(doc, t, 0) == "" && ColumnAlignment(doc, t, 1) == ""
    ensures MaxChildCount(doc, Rows(doc, t)) == 2
    ensures var a := ColumnAlignments(doc, t, 2); a[0] == "" && a[1] == ""
  {
    TwoRowsWidth(doc, Rows(doc, t), r0, r1);
    ColumnAlignmentsStep(doc, t, 0, ColumnAlignment(doc, t, 0));
    ColumnAlignmentsStep(doc, t, 1, ColumnAlignment(doc, t, 1));
  }

  /** The wider of two rows sets the column count. */
  lemma TwoRowsWidth(doc: Tree, rows: seq<NodeId>, r0: NodeId, r1: NodeId)
    requires rows == [r0, r1] && |Kids(doc, r0)| == 1 && |Kids(doc, r1)| == 2
    ensures MaxChildCount(doc, rows) == 2
  {
    assert rows[..1] == [r0] && [r0][..0] == [];
  }

  /** In a tree without `align` attributes or `text-align` styles, every column is
      unaligned. */
  lemma {:induction false} UnalignedCells(doc: Tree, rows: seq<NodeId>, col: nat)
    requires forall n: NodeId :: NodeAt(doc, n).align == "" && NodeAt(doc, n).textAlign == ""
    ensures var cells := ColumnCellAlignments(doc, rows, col);
      && (forall i | 0 <= i < |cells| :: cells[i] == "")
      && ColumnWinner(cells) == ""
    decreases |rows|
  {
    if rows != [] {
      UnalignedCells(doc, rows[..|rows| - 1], col);
      var row := rows[|rows| - 1];
      if col < |Kids(doc, row)| {
        assert GetAlignment(doc, Some(Kids(doc, row)[col])) == "";
      }
    }
    UnalignedVotes(ColumnCellAlignments(doc, rows, col));
  }
}
