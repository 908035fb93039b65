/** The replacement functions of the table rules, and the plugin state they share:
    Turndown's `isCodeBlock`, the `preserveNestedTables` option and the cache of
    `tableShouldBeSkipped`. The Turndown engine itself (rule dispatch, and how the
    `content` of a node's children is produced) is outside the model: `content` is
    an input of every rule. */
module TableRules {
  import opened JsText
  import opened Dom
  import opened Alignment
  import opened Cells
  import opened TableStructure

  // ---------------------------------------------------------------------------
  // Rule filters

  /** The keys under which the plugin registers its rules. */
  datatype RuleKey = TableCell | TableRow | Table | TableCaption | TableColgroup | TableSection

  /** Whether the filter of rule `key` selects a node named `nodeName`. Turndown
      compares a filter's tag names with the lower-cased `nodeName`; the `table`
      rule's own filter compares `nodeName` with `TABLE`. */
  predicate Matches(key: RuleKey, nodeName: string) {
    var tag := AsciiLower(nodeName);
    match key
    case TableCell => tag in ["th", "td"]
    case TableRow => tag == "tr"
    case Table => nodeName == "TABLE"
    case TableCaption => tag in ["caption"]
    case TableColgroup => tag in ["colgroup", "col"]
    case TableSection => tag in ["thead", "tbody", "tfoot"]
  }

  /** The rule Turndown picks among the plugin's. Turndown tries the last registered
      rule first, but the filters never overlap (`RuleForIff`), so the order in which
      they are tried here does not matter. */
  function RuleFor(nodeName: string): Option<RuleKey> {
    if Matches(TableCell, nodeName) then Some(TableCell)
    else if Matches(TableRow, nodeName) then Some(TableRow)
    else if Matches(Table, nodeName) then Some(Table)
    else if Matches(TableCaption, nodeName) then Some(TableCaption)
    else if Matches(TableColgroup, nodeName) then Some(TableColgroup)
    else if Matches(TableSection, nodeName) then Some(TableSection)
    else None
  }

  /** The filters do not overlap: a node is handled by the one rule whose filter
      selects it, whatever the registration order. */
  lemma RuleForIff(nodeName: string, key: RuleKey)
    ensures RuleFor(nodeName) == Some(key) <==> Matches(key, nodeName)
  {
    var tag := AsciiLower(nodeName);
    if nodeName == "TABLE" {
      assert |tag| == 5 && tag[0] == 't' && tag[1] == 'a';
    }
  }

  /** The `tableCaption`, `tableColgroup` and `tableSection` replacements: a caption or
      a column group prints nothing (the table rule prints the caption itself), and a
      row group prints its rows. */
  function PassiveRuleOutput(key: RuleKey, content: string): (r: string)
    requires key == TableCaption || key == TableColgroup || key == TableSection
    ensures key == TableSection ==> r == content
    ensures key != TableSection ==> r == ""
  {
    if key == TableSection then content else ""
  }

  // ---------------------------------------------------------------------------
  // What the rules print

  /** What `tableShouldBeSkipped` answers: a missing table is skipped. */
  function SkipDecision(doc: Tree, t: Option<NodeId>): bool
    requires WF(doc) && (t.Some? ==> t.value < |doc.nodes|)
  {
    t.None? || ShouldBeSkippedUncached(doc, t.value)
  }

  /** The skip cache once `tableShouldBeSkipped(t)` has returned. */
  function CacheAfter(doc: Tree, cache: map<NodeId, bool>, t: Option<NodeId>): map<NodeId, bool>
    requires WF(doc) && (t.Some? ==> t.value < |doc.nodes|)
  {
    if t.None? then cache else cache[t.value := ShouldBeSkippedUncached(doc, t.value)]
  }

  /** The replacement of the `tableCell` rule for a `th` or `td`. */
  function CellRuleOutput(doc: Tree, content: string, node: NodeId): string
    requires WF(doc) && node < |doc.nodes|
  {
    if SkipDecision(doc, ParentTable(doc, Some(node))) then content
    else CellText(doc, content, Some(node), None)
  }

  /** The child of `tr` at index `i`, if it has that many. */
  function ChildAt(doc: Tree, tr: NodeId, i: nat): Option<NodeId> {
    if i < |Kids(doc, tr)| then Some(Kids(doc, tr)[i]) else None
  }

  /** The alignments `getColumnAlignment` computes for the first `n` columns of `t`. */
  function ColumnAlignments(doc: Tree, t: NodeId, n: nat): (r: seq<string>)
    ensures |r| == n && AllAlignKeys(r)
  {
    if n == 0 then [] else ColumnAlignments(doc, t, n - 1) + [ColumnAlignment(doc, t, n - 1)]
  }

  /** Every alignment is one of the four keys. */
  predicate AllAlignKeys(aligns: seq<string>) {
    forall i | 0 <= i < |aligns| :: IsAlignKey(aligns[i])
  }

  /** The delimiter cells that the `tableRow` rule writes under a heading row, one
      per column alignment in `aligns`: the border of the column's alignment, printed
      by `cell` for the row's child at that index (which may widen it by its
      `colspan`). */
  function BorderCells(doc: Tree, aligns: seq<string>, tr: NodeId): string
    requires AllAlignKeys(aligns)
  {
    if aligns == [] then ""
    else
      var n := |aligns|;
      BorderCells(doc, aligns[..n - 1], tr)
      + CellText(doc, GetBorder(aligns[n - 1]), ChildAt(doc, tr, n - 1), Some(n - 1))
  }

  /** The replacement of the `tableRow` rule. */
  function RowRuleOutput(doc: Tree, content: string, tr: NodeId): string
    requires WF(doc) && tr < |doc.nodes|
  {
    var t := ParentTable(doc, Some(tr));
    if SkipDecision(doc, t) then content
    else
      var borderCells :=
        if IsHeadingRow(doc, tr) then BorderCells(doc, ColumnAlignments(doc, t.value, MaxChildCount(doc, Rows(doc, t.value))), tr)
        else "";
      "\n" + content + (if borderCells != "" then "\n" + borderCells else "")
  }

  /** `/\| :?---/.test(line)`: the plugin's test for a delimiter row, a `| ---` or
      `| :---` anywhere in the line. */
  predicate IsDividerLine(line: string) {
    HasSubstring(line, "| ---") || HasSubstring(line, "| :---")
  }

  /** The second line of the trimmed content, "" when there is none. */
  function SecondLine(s: string): string {
    var lines := Split(Trim(s), '\n');
    if |lines| >= 2 then lines[1] else ""
  }

  /** The opening pipe and a delimiter cell ` <border> |` per column alignment. */
  function DelimiterRow(aligns: seq<string>): string
    requires AllAlignKeys(aligns)
  {
    if aligns == [] then "|"
    else DelimiterRow(aligns[..|aligns| - 1]) + HeaderCell(GetBorder(aligns[|aligns| - 1]))
  }

  /** The delimiter cell ` <border> |` of the synthesized header. */
  function HeaderCell(border: string): string {
    " " + border + " |"
  }

  /** The header the `table` rule puts in front of a table without one: a row of
      `columnCount` blank cells over a delimiter row for the columns' alignments. */
  function EmptyHeader(doc: Tree, t: NodeId, columnCount: nat): string {
    "|" + Repeat("     |", columnCount) + "\n" + DelimiterRow(ColumnAlignments(doc, t, columnCount))
  }

  /** The `table` rule's GFM table for `t`, whose rows printed as `content`. */
  function MarkdownTable(doc: Tree, content: string, t: NodeId): string {
    var text := CollapseNewlines(content);
    var columnCount := MaxChildCount(doc, Rows(doc, t));
    var emptyHeader :=
      if columnCount > 0 && !IsDividerLine(SecondLine(text)) then EmptyHeader(doc, t, columnCount) else "";
    var captionContent := CaptionText(doc, t);
    var caption := if captionContent != "" then captionContent + "\n\n" else "";
    "\n\n" + caption + TrimStart(emptyHeader + text) + "\n\n"
  }

  /** The `table` rule's raw HTML for `t`: its `outerHTML`, wrapped in a `div` block
      unless the table already sits in one. */
  function HtmlTable(doc: Tree, t: NodeId): string
    requires WF(doc)
  {
    var html := NodeAt(doc, t).outerHtml;
    if NearestAncestorNamed(doc, t, "DIV").None? then "\n\n<div>" + html + "</div>\n\n" else html
  }

  /** The replacement of the `table` rule. */
  function TableRuleOutput(doc: Tree, isCodeBlock: NodeId -> bool, preserveNestedTables: bool,
                           content: string, t: NodeId): string
    requires WF(doc) && t < |doc.nodes|
  {
    if TableShouldBeHtml(doc, isCodeBlock, preserveNestedTables, t) then HtmlTable(doc, t)
    else if ShouldBeSkippedUncached(doc, t) then content
    else MarkdownTable(doc, content, t)
  }

  // ---------------------------------------------------------------------------
  // Properties of what the rules print

  /** A line that starts with `| ` and a border holds a delimiter row marker. */
  lemma DividerAtStart(m: string, r: string)
    requires (|m| >= 3 && m[..3] == "---") || (|m| >= 4 && m[..4] == ":---")
    requires |r| >= 2 + |m| && r[..2] == "| " && r[2..2 + |m|] == m
    ensures IsDividerLine(r)
  {
    if m[..3] == "---" {
      assert r[..5] == r[..2] + r[2..5];
      assert r[2..5] == m[..3];
      assert r[..5] == "| ---";
    } else {
      assert r[..6] == r[..2] + r[2..6];
      assert r[2..6] == m[..4];
      assert r[..6] == "| :---";
    }
  }

  /** `cell` prints a border as it is. */
  lemma BorderIsPlainText(a: string)
    requires IsAlignKey(a)
    ensures CellBody(GetBorder(a)) == GetBorder(a)
  {
    var b := GetBorder(a);
    assert b[0] == '-' || b[0] == ':';
    assert b[|b| - 1] == '-' || b[|b| - 1] == ':';
    assert forall i | 0 <= i < |b| :: b[i] != '\n' && b[i] != '|';
    CellBodyKeepsPlainText(b);
  }

  /** A line made of `| `, then `m`, then anything holds a delimiter row marker when
      `m` starts as a border does. */
  lemma DividerCell(m: string, rest: string)
    requires (|m| >= 3 && m[..3] == "---") || (|m| >= 4 && m[..4] == ":---")
    ensures IsDividerLine("| " + (m + rest) + " |")
  {
    var r := "| " + (m + rest) + " |";
    assert r[..2] == "| ";
    assert r[2..2 + |m|] == m;
    DividerAtStart(m, r);
  }

  /** A border cell printed by `cell` for the first column. */
  lemma FirstBorderCell(doc: Tree, a: string, node: Option<NodeId>)
    requires IsAlignKey(a)
    ensures IsDividerLine(CellText(doc, GetBorder(a), node, Some(0)))
  {
    var b := GetBorder(a);
    BorderIsPlainText(a);
    assert CellIndex(doc, node, Some(0)) == Some(0);
    DividerCell(b, SpanCells(doc, node));
  }

  /** The number of columns the first `n` border cells span, `colspan` included. */
  function BorderColumns(doc: Tree, tr: NodeId, n: nat): nat {
    if n == 0 then 0
    else
      var c := ChildAt(doc, tr, n - 1);
      BorderColumns(doc, tr, n - 1) + 1 + (if c.Some? then ExtraColumns(NodeAt(doc, c.value).colspan) else 0)
  }

  /** The cell `cell` prints for column `i` is one line that ends with a pipe and
      starts with a space after the first column. */
  lemma IndexedCellFrame(doc: Tree, content: string, c: Option<NodeId>, i: nat)
    ensures var cell := CellText(doc, content, c, Some(i));
      && |cell| >= 2 && '\n' !in cell && cell[|cell| - 1] == '|'
      && (i > 0 ==> cell[0] == ' ')
  {
    var cell := CellText(doc, content, c, Some(i));
    assert CellIndex(doc, c, Some(i)) == Some(i);
    CellFrame(doc, content, c, Some(i));
    assert cell[|cell| - 1] == cell[|cell| - 2..][1];
  }

  /** The delimiters of the cell `cell` prints for column `i`. */
  lemma IndexedCellDelimiters(doc: Tree, content: string, c: Option<NodeId>, i: nat)
    ensures Delimiters(CellText(doc, content, c, Some(i)))
      == (if i == 0 then 1 else 0) + (if c.Some? then ExtraColumns(NodeAt(doc, c.value).colspan) else 0) + 1
  {
    assert CellIndex(doc, c, Some(i)) == Some(i);
    CellDelimiters(doc, content, c, Some(i));
  }

  /** Appending a cell to a delimiter row keeps it one delimiter row. */
  lemma AppendBorderCell(prev: string, cell: string)
    requires '\n' !in prev && '\n' !in cell && |cell| >= 2 && cell[|cell| - 1] == '|'
    requires prev == [] ==> IsDividerLine(cell)
    requires prev != [] ==> IsDividerLine(prev) && prev[|prev| - 1] == '|' && cell[0] == ' '
    ensures var s := prev + cell;
      && '\n' !in s && s[|s| - 1] == '|' && IsDividerLine(s)
      && Delimiters(s) == Delimiters(prev) + Delimiters(cell)
  {
    DelimitersAppend(prev, cell);
    if prev == [] {
      assert prev + cell == cell;
    } else {
      HasSubstringExtends(prev, cell, if HasSubstring(prev, "| ---") then "| ---" else "| :---");
    }
  }

  /** The delimiter cells under a heading row are one line that passes the delimiter-row
      test, with one delimiter per column the cells span plus the opening one; with a
      spanning heading cell that is more than the table's columns (see `ColspanBorder`). */
  lemma {:induction false} BorderCellsShape(doc: Tree, aligns: seq<string>, tr: NodeId)
    requires AllAlignKeys(aligns)
    ensures var b := BorderCells(doc, aligns, tr);
      && '\n' !in b
      && Delimiters(b) == (if aligns != [] then 1 else 0) + BorderColumns(doc, tr, |aligns|)
      && (aligns != [] ==> IsDividerLine(b) && b[|b| - 1] == '|')
  {
    if aligns != [] {
      var n := |aligns|;
      var front := aligns[..n - 1];
      assert AllAlignKeys(front) by {
        assert forall i | 0 <= i < n - 1 :: front[i] == aligns[i];
      }
      BorderCellsShape(doc, front, tr);
      var prev := BorderCells(doc, front, tr);
      var c := ChildAt(doc, tr, n - 1);
      var cell := CellText(doc, GetBorder(aligns[n - 1]), c, Some(n - 1));
      IndexedCellFrame(doc, GetBorder(aligns[n - 1]), c, n - 1);
      IndexedCellDelimiters(doc, GetBorder(aligns[n - 1]), c, n - 1);
      if n == 1 {
        FirstBorderCell(doc, aligns[0], c);
      }
      assert prev == [] <==> n == 1;
      AppendBorderCell(prev, cell);
      assert BorderCells(doc, aligns, tr) == prev + cell;
    }
  }

  /** `n` blank header cells after the opening pipe. */
  lemma {:induction false} BlankCells(k: nat)
    ensures var s := "|" + Repeat("     |", k);
      && Delimiters(s) == k + 1 && '\n' !in s
      && (forall i | 0 <= i < |s| :: s[i] == ' ' || s[i] == '|')
      && s[|s| - 1] == '|'
  {
    var s := "|" + Repeat("     |", k);
    if k == 0 {
      assert s == "|";
      assert "|"[..0] == [];
    } else {
      BlankCells(k - 1);
      var prev := "|" + Repeat("     |", k - 1);
      assert s == prev + "     |";
      assert Delimiters("     |") == 1 by {
        NoDelimiters("     ");
        assert "     |"[..5] == "     ";
      }
      DelimitersAppend(prev, "     |");
    }
  }

  /** One delimiter cell of the synthesized header. */
  lemma HeaderBorderCell(a: string)
    requires IsAlignKey(a)
    ensures var cell := HeaderCell(GetBorder(a));
      && Delimiters(cell) == 1 && '\n' !in cell && |cell| >= 2 && cell[|cell| - 1] == '|' && cell[0] == ' '
      && IsDividerLine("|" + cell)
  {
    var b := GetBorder(a);
    var cell := HeaderCell(b);
    assert forall i | 0 <= i < |b| :: b[i] != '\n' && b[i] != '|';
    assert cell[..|cell| - 1] == " " + b + " ";
    NoDelimiters(" " + b + " ");
    assert cell == cell[..|cell| - 1] + "|";
    assert Delimiters("|") == 1 by { assert "|"[..0] == []; }
    DelimitersAppend(cell[..|cell| - 1], "|");
    assert "|" + cell == "| " + (b + []) + " |";
    DividerCell(b, []);
  }

  /** `s` is the opening pipe and the delimiter cells of `k` columns. */
  predicate HeaderRowShape(s: string, k: nat) {
    && Delimiters(s) == k + 1 && '\n' !in s && |s| >= 1 && s[|s| - 1] == '|'
    && (k == 0 ==> s == "|")
    && (k > 0 ==> IsDividerLine(s))
  }

  /** The opening pipe alone. */
  lemma PipeShape()
    ensures HeaderRowShape("|", 0)
  {
    assert "|"[..0] == [];
  }

  /** Appending a delimiter cell to the synthesized delimiter row. */
  lemma AppendHeaderCell(prev: string, a: string, k: nat, s: string)
    requires HeaderRowShape(prev, k) && IsAlignKey(a) && s == prev + HeaderCell(GetBorder(a))
    ensures HeaderRowShape(s, k + 1)
  {
    var cell := HeaderCell(GetBorder(a));
    HeaderBorderCell(a);
    DelimitersAppend(prev, cell);
    if k > 0 {
      HasSubstringExtends(prev, cell, if HasSubstring(prev, "| ---") then "| ---" else "| :---");
    }
  }

  /** The synthesized delimiter row has one delimiter per column plus the opening
      one, and is marked as a delimiter row once it has a column. */
  lemma {:induction false} DelimiterRowShape(aligns: seq<string>)
    requires AllAlignKeys(aligns)
    ensures HeaderRowShape(DelimiterRow(aligns), |aligns|)
  {
    if aligns == [] {
      PipeShape();
    } else {
      var n := |aligns|;
      var front := aligns[..n - 1];
      assert AllAlignKeys(front) by {
        assert forall i | 0 <= i < n - 1 :: front[i] == aligns[i];
      }
      DelimiterRowShape(front);
      AppendHeaderCell(DelimiterRow(front), aligns[n - 1], n - 1, DelimiterRow(aligns));
    }
  }

  /** The synthesized header is a GFM header: a line of blank cells over a delimiter
      row, both with one delimiter per column plus the opening one. */
  lemma EmptyHeaderShape(doc: Tree, t: NodeId, columnCount: nat)
    requires columnCount > 0
    ensures var lines := Split(EmptyHeader(doc, t, columnCount), '\n');
      && |lines| == 2
      && Delimiters(lines[0]) == columnCount + 1 && (forall i | 0 <= i < |lines[0]| :: lines[0][i] == ' ' || lines[0][i] == '|')
      && Delimiters(lines[1]) == columnCount + 1 && IsDividerLine(lines[1])
  {
    var l0 := "|" + Repeat("     |", columnCount);
    var l1 := DelimiterRow(ColumnAlignments(doc, t, columnCount));
    BlankCells(columnCount);
    DelimiterRowShape(ColumnAlignments(doc, t, columnCount));
    assert Join([l0, l1], '\n') == l0 + ['\n'] + l1;
    assert EmptyHeader(doc, t, columnCount) == l0 + ['\n'] + l1;
    SplitJoin([l0, l1], '\n');
  }

  /** Collapsing line feeds leaves a line feed, a row `h`, a line feed and the start
      `b` of the next row alone. */
  lemma CollapseAfterHeadingRow(h: string, b: string, rest: string)
    requires '\n' !in h && h != [] && '\n' !in b && b != []
    ensures CollapseNewlines("\n" + (h + ("\n" + (b + rest))))
      == "\n" + (h + ("\n" + (b + ReplaceRuns(rest, '\n', "\n"))))
  {
    ReplaceRunsPrefixFree(b, rest, '\n', "\n");
    LeadingLineFeed(b + rest);
    ReplaceRunsPrefixFree(h, "\n" + (b + rest), '\n', "\n");
    LeadingLineFeed(h + ("\n" + (b + rest)));
  }

  /** A single line feed before a line is kept as it is. */
  lemma LeadingLineFeed(x: string)
    requires x != [] && x[0] != '\n'
    ensures ReplaceRuns("\n" + x, '\n', "\n") == "\n" + ReplaceRuns(x, '\n', "\n")
  {
    var z := "\n" + x;
    assert z[1..] == x;
    assert DropRun(z, '\n') == DropRun(x, '\n');
  }

  /** Trimming cuts the leading line feed and the white space at both ends. */
  lemma TrimAfterHeadingRow(h: string, b: string, rr: string)
    requires !AllSpace(h) && b != [] && !IsSpace(b[|b| - 1])
    ensures Trim("\n" + (h + ("\n" + (b + rr)))) == TrimStart(h) + ("\n" + (b + TrimEnd(rr)))
  {
    var y := h + ("\n" + (b + rr));
    var p := TrimStart(h) + ("\n" + b);
    assert TrimStart("\n" + y) == p + rr by {
      assert AllSpace("\n");
      TrimStartAfterSpace("\n", y);
      TrimStartBefore(h, "\n" + (b + rr));
      ConcatAssoc(TrimStart(h), "\n" + b, rr);
      ConcatAssoc("\n", b, rr);
    }
    assert TrimEnd(p + rr) == p + TrimEnd(rr) by {
      assert p[|p| - 1] == b[|b| - 1];
      TrimEndAfter(p, rr);
    }
    ConcatAssoc(TrimStart(h), "\n" + b, TrimEnd(rr));
    ConcatAssoc("\n", b, TrimEnd(rr));
  }

  lemma ConcatAssoc(x: string, y: string, z: string)
    ensures x + (y + z) == (x + y) + z
  {
  }

  /** The second line of a row, a line feed and `b` followed by more starts with `b`. */
  lemma SplitAfterHeadingRow(hs: string, b: string, x: string)
    requires '\n' !in hs && '\n' !in b
    ensures var lines := Split(hs + ("\n" + (b + x)), '\n');
      |lines| >= 2 && lines[1] == b + Split(x, '\n')[0]
  {
    var tail := "\n" + (b + x);
    SplitPrepend(hs, tail, '\n');
    assert tail[0] == '\n' && tail[1..] == b + x;
    SplitPrepend(b, x, '\n');
  }

  /** What the `table` rule reads as the second line when the content starts with a
      row `h` followed by the delimiter cells `b` of the `tableRow` rule. */
  lemma SecondLineAfterHeadingRow(h: string, b: string, rest: string)
    requires '\n' !in h && !AllSpace(h)
    requires '\n' !in b && b != [] && b[|b| - 1] == '|'
    ensures exists x :: SecondLine(CollapseNewlines("\n" + (h + ("\n" + (b + rest))))) == b + x
  {
    CollapseAfterHeadingRow(h, b, rest);
    var rr := ReplaceRuns(rest, '\n', "\n");
    TrimAfterHeadingRow(h, b, rr);
    var hs := TrimStart(h);
    assert '\n' !in hs;
    SplitAfterHeadingRow(hs, b, TrimEnd(rr));
    assert SecondLine("\n" + (h + ("\n" + (b + rr)))) == b + Split(TrimEnd(rr), '\n')[0];
  }

  /** Content that starts with a row and a delimiter row has a delimiter row as its
      second line. */
  lemma DividerAfterRow(h: string, b: string, rest: string)
    requires '\n' !in h && !AllSpace(h)
    requires '\n' !in b && b != [] && b[|b| - 1] == '|' && IsDividerLine(b)
    ensures IsDividerLine(SecondLine(CollapseNewlines("\n" + (h + ("\n" + b)) + rest)))
  {
    assert "\n" + (h + ("\n" + b)) + rest == "\n" + (h + ("\n" + (b + rest)));
    SecondLineAfterHeadingRow(h, b, rest);
    var x :| SecondLine(CollapseNewlines("\n" + (h + ("\n" + (b + rest))))) == b + x;
    HasSubstringExtends(b, x, if HasSubstring(b, "| ---") then "| ---" else "| :---");
  }

  /** What the `tableRow` rule prints for a heading row of a table it does not skip. */
  lemma HeadingRowOutput(doc: Tree, t: NodeId, tr: NodeId, h: string)
    requires WF(doc) && tr < |doc.nodes| && ParentTable(doc, Some(tr)) == Some(t)
    requires !SkipDecision(doc, Some(t)) && IsHeadingRow(doc, tr)
    requires MaxChildCount(doc, Rows(doc, t)) > 0
    ensures var b := BorderCells(doc, ColumnAlignments(doc, t, MaxChildCount(doc, Rows(doc, t))), tr);
      && RowRuleOutput(doc, h, tr) == "\n" + (h + ("\n" + b))
      && '\n' !in b && b != [] && b[|b| - 1] == '|' && IsDividerLine(b)
  {
    var aligns := ColumnAlignments(doc, t, MaxChildCount(doc, Rows(doc, t)));
    var b := BorderCells(doc, aligns, tr);
    BorderCellsShape(doc, aligns, tr);
    ConcatAssoc("\n", h, "\n" + b);
  }

  /** When the second line is a delimiter row, the `table` rule adds no header. */
  lemma MarkdownTableWithHeader(doc: Tree, content: string, t: NodeId)
    requires IsDividerLine(SecondLine(CollapseNewlines(content)))
    ensures MarkdownTable(doc, content, t)
      == "\n\n" + (if CaptionText(doc, t) != "" then CaptionText(doc, t) + "\n\n" else "")
         + TrimStart(CollapseNewlines(content)) + "\n\n"
  {
    assert "" + CollapseNewlines(content) == CollapseNewlines(content);
  }

  /** A table whose content starts with a heading row printed by the `tableRow` rule
      gets no synthesized header: its second line is already a delimiter row. */
  lemma HeadingRowSuppressesEmptyHeader(doc: Tree, t: NodeId, tr: NodeId, h: string, rest: string)
    requires WF(doc) && tr < |doc.nodes| && ParentTable(doc, Some(tr)) == Some(t)
    requires !SkipDecision(doc, Some(t)) && IsHeadingRow(doc, tr)
    requires MaxChildCount(doc, Rows(doc, t)) > 0
    requires '\n' !in h && !AllSpace(h)
    ensures var content := RowRuleOutput(doc, h, tr) + rest;
      && IsDividerLine(SecondLine(CollapseNewlines(content)))
      && MarkdownTable(doc, content, t)
         == "\n\n" + (if CaptionText(doc, t) != "" then CaptionText(doc, t) + "\n\n" else "")
            + TrimStart(CollapseNewlines(content)) + "\n\n"
  {
    HeadingRowOutput(doc, t, tr, h);
    var b := BorderCells(doc, ColumnAlignments(doc, t, MaxChildCount(doc, Rows(doc, t))), tr);
    DividerAfterRow(h, b, rest);
    MarkdownTableWithHeader(doc, RowRuleOutput(doc, h, tr) + rest, t);
  }

  /** A table that holds another table is never printed as a pipe table: the rule
      keeps it as HTML when nested tables are preserved, else it passes its content
      through as a skipped table. */
  lemma NestedTableRuleOutput(doc: Tree, isCodeBlock: NodeId -> bool, preserveNestedTables: bool,
                              content: string, t: NodeId, d: NodeId)
    requires WF(doc) && t < d < |doc.nodes| && IsAncestor(doc, t, d) && Name(doc, d) == "TABLE"
    ensures var r := TableRuleOutput(doc, isCodeBlock, preserveNestedTables, content, t);
      && (r == HtmlTable(doc, t) || r == content)
      && (preserveNestedTables ==> r == HtmlTable(doc, t))
  {
    NestedTableNeverPipeTable(doc, isCodeBlock, preserveNestedTables, t, d);
  }

  /** A table of one row with at most one child node is not printed as a pipe table. */
  lemma SingleCellTableRuleOutput(doc: Tree, isCodeBlock: NodeId -> bool, preserveNestedTables: bool,
                                  content: string, t: NodeId)
    requires WF(doc) && t < |doc.nodes| && Name(doc, t) == "TABLE"
    requires |Rows(doc, t)| == 1 && |Kids(doc, Rows(doc, t)[0])| <= 1
    ensures var r := TableRuleOutput(doc, isCodeBlock, preserveNestedTables, content, t);
      r == HtmlTable(doc, t) || r == content
  {
  }

  /** The raw HTML of a table is its `outerHTML`, in a `div` block exactly when no
      ancestor is a `div`. */
  lemma HtmlTableShape(doc: Tree, t: NodeId)
    requires WF(doc)
    ensures var html := NodeAt(doc, t).outerHtml;
      && ((forall a: NodeId | IsAncestor(doc, a, t) :: Name(doc, a) != "DIV") ==>
            HtmlTable(doc, t) == "\n\n<div>" + html + "</div>\n\n")
      && ((exists a: NodeId :: IsAncestor(doc, a, t) && Name(doc, a) == "DIV") ==> HtmlTable(doc, t) == html)
  {
    NearestAncestorSpec(doc, t, "DIV");
  }

  /** The pipe table is a block: it is set off by blank lines and starts with the
      caption, then the synthesized header, if any. */
  lemma MarkdownTableShape(doc: Tree, content: string, t: NodeId)
    requires MaxChildCount(doc, Rows(doc, t)) > 0
    requires !IsDividerLine(SecondLine(CollapseNewlines(content)))
    ensures var r := MarkdownTable(doc, content, t);
      var caption := if CaptionText(doc, t) != "" then CaptionText(doc, t) + "\n\n" else "";
      var header := EmptyHeader(doc, t, MaxChildCount(doc, Rows(doc, t)));
      r == "\n\n" + caption + (header + CollapseNewlines(content)) + "\n\n"
  {
    var header := EmptyHeader(doc, t, MaxChildCount(doc, Rows(doc, t)));
    TrimStartOfPipe(header, CollapseNewlines(content));
  }

  /** Text that starts with a pipe has no leading white space to trim. */
  lemma TrimStartOfPipe(header: string, text: string)
    requires header != [] && header[0] == '|'
    ensures TrimStart(header + text) == header + text
  {
    assert (header + text)[0] == '|';
  }

  // ---------------------------------------------------------------------------
  // The loops of the rules

  /** One more column alignment. */
  lemma ColumnAlignmentsStep(doc: Tree, t: NodeId, i: nat, a: string)
    requires a == ColumnAlignment(doc, t, i)
    ensures ColumnAlignments(doc, t, i + 1) == ColumnAlignments(doc, t, i) + [a]
  {
  }

  /** One more delimiter cell under a heading row. */
  lemma BorderCellsStep(doc: Tree, aligns: seq<string>, tr: NodeId, a: string, c: Option<NodeId>)
    requires AllAlignKeys(aligns) && IsAlignKey(a) && c == ChildAt(doc, tr, |aligns|)
    ensures AllAlignKeys(aligns + [a])
    ensures BorderCells(doc, aligns + [a], tr)
      == BorderCells(doc, aligns, tr) + CellText(doc, GetBorder(a), c, Some(|aligns|))
  {
    assert (aligns + [a])[..|aligns|] == aligns;
  }

  /** One more cell of the synthesized delimiter row. */
  lemma DelimiterRowStep(aligns: seq<string>, a: string)
    requires AllAlignKeys(aligns) && IsAlignKey(a)
    ensures AllAlignKeys(aligns + [a])
    ensures DelimiterRow(aligns + [a]) == DelimiterRow(aligns) + HeaderCell(GetBorder(a))
  {
    assert (aligns + [a])[..|aligns|] == aligns;
  }

  /** The loop of the `tableRow` rule that prints the delimiter cells of a heading row. */
  method HeadingRowBorder(doc: Tree, t: NodeId, tr: NodeId, colCount: nat) returns (borderCells: string)
    ensures borderCells == BorderCells(doc, ColumnAlignments(doc, t, colCount), tr)
  {
    borderCells := "";
    var i := 0;
    while i < colCount
      invariant 0 <= i <= colCount
      invariant borderCells == BorderCells(doc, ColumnAlignments(doc, t, i), tr)
    {
      var childNode := ChildAt(doc, tr, i);
      var alignment := GetColumnAlignment(doc, t, i);
      var border := Cell(doc, GetBorder(alignment), childNode, Some(i));
      ColumnAlignmentsStep(doc, t, i, alignment);
      BorderCellsStep(doc, ColumnAlignments(doc, t, i), tr, alignment, childNode);
      borderCells := borderCells + border;
      i := i + 1;
    }
  }

  /** The loop of the `table` rule that builds the header of a table without one. */
  method BuildEmptyHeader(doc: Tree, t: NodeId, columnCount: nat) returns (emptyHeader: string)
    ensures emptyHeader == EmptyHeader(doc, t, columnCount)
  {
    var blankRow := "|" + Repeat("     |", columnCount) + "\n";
    emptyHeader := blankRow + "|";
    var columnIndex := 0;
    while columnIndex < columnCount
      invariant 0 <= columnIndex <= columnCount
      invariant emptyHeader == blankRow + DelimiterRow(ColumnAlignments(doc, t, columnIndex))
    {
      var alignment := GetColumnAlignment(doc, t, columnIndex);
      ColumnAlignmentsStep(doc, t, columnIndex, alignment);
      DelimiterRowStep(ColumnAlignments(doc, t, columnIndex), alignment);
      ConcatAssoc(blankRow, DelimiterRow(ColumnAlignments(doc, t, columnIndex)), HeaderCell(GetBorder(alignment)));
      emptyHeader := emptyHeader + (" " + GetBorder(alignment) + " |");
      columnIndex := columnIndex + 1;
    }
  }

  /** The part of the `table` rule that prints a table as a GFM table. */
  method RenderMarkdownTable(doc: Tree, content: string, t: NodeId) returns (r: string)
    ensures r == MarkdownTable(doc, content, t)
  {
    var text := CollapseNewlines(content);
    var contentLines := Split(Trim(text), '\n');
    var secondLine := "";
    if |contentLines| >= 2 {
      secondLine := contentLines[1];
    }
    var secondLineIsDivider := IsDividerLine(secondLine);
    var columnCount := TableColCount(doc, t);
    var emptyHeader := "";
    if columnCount > 0 && !secondLineIsDivider {
      emptyHeader := BuildEmptyHeader(doc, t, columnCount);
    }
    var captionContent := CaptionText(doc, t);
    var caption := if captionContent != "" then captionContent + "\n\n" else "";
    var tableContent := TrimStart(emptyHeader + text);
    r := "\n\n" + caption + tableContent + "\n\n";
  }

  // ---------------------------------------------------------------------------
  // The plugin

  /** The state of the plugin for one document: what `tables` stores when it
      registers the rules, and the cache of `tableShouldBeSkipped`, which is never
      cleared. */
  class TablesPlugin {
    const doc: Tree
    const isCodeBlock: NodeId -> bool
    const preserveNestedTables: bool
    var skipCache: map<NodeId, bool>

    /** Every cached answer is the one `tableShouldBeSkipped_` gives. */
    ghost predicate Valid()
      reads this
    {
      && WF(doc)
      && forall t | t in skipCache :: t < |doc.nodes| && skipCache[t] == ShouldBeSkippedUncached(doc, t)
    }

    /** `tables(turndownService)`: stores `isCodeBlock` and the options; the cache
        starts empty. */
    constructor (doc: Tree, isCodeBlock: NodeId -> bool, preserveNestedTables: bool)
      requires WF(doc)
      ensures Valid()
      ensures this.doc == doc && this.isCodeBlock == isCodeBlock
      ensures this.preserveNestedTables == preserveNestedTables
      ensures skipCache == map[]
    {
      this.doc := doc;
      this.isCodeBlock := isCodeBlock;
      this.preserveNestedTables := preserveNestedTables;
      skipCache := map[];
    }

    /** The filter `tables` passes to `keep`: tables that stay HTML. */
    predicate Keep(n: NodeId)
      requires WF(doc) && n < |doc.nodes|
    {
      Name(doc, n) == "TABLE" && TableShouldBeHtml(doc, isCodeBlock, preserveNestedTables, n)
    }

    /** The `keep` filter and the `table` rule agree: a kept table is exactly one the
        rule prints as raw HTML. */
    lemma KeepAgreesWithTableRule(n: NodeId, content: string)
      requires WF(doc) && n < |doc.nodes| && Name(doc, n) == "TABLE"
      ensures Keep(n) <==> TableShouldBeHtml(doc, isCodeBlock, preserveNestedTables, n)
      ensures Keep(n) ==> TableRuleOutput(doc, isCodeBlock, preserveNestedTables, content, n) == HtmlTable(doc, n)
    {
    }

    /** `tableShouldBeSkipped`: answers from the cache when it can, else computes the
        answer and caches it. */
    method ShouldBeSkipped(tableNode: Option<NodeId>) returns (skip: bool)
      requires Valid() && (tableNode.Some? ==> tableNode.value < |doc.nodes|)
      modifies this
      ensures Valid()
      ensures skip == SkipDecision(doc, tableNode)
      ensures skipCache == CacheAfter(doc, old(skipCache), tableNode)
      ensures tableNode.Some? && tableNode.value in old(skipCache) ==> skipCache == old(skipCache)
    {
      if tableNode.None? {
        return true;
      }
      var t := tableNode.value;
      if t in skipCache {
        return skipCache[t];
      }
      var result := ShouldBeSkippedUncached(doc, t);
      skipCache := skipCache[t := result];
      return result;
    }

    /** The `tableCell` replacement for a `th` or `td`. */
    method TableCellRule(content: string, node: NodeId) returns (r: string)
      requires Valid() && node < |doc.nodes|
      modifies this
      ensures Valid()
      ensures r == CellRuleOutput(doc, content, node)
      ensures skipCache == CacheAfter(doc, old(skipCache), ParentTable(doc, Some(node)))
    {
      var parentTable := NodeParentTable(doc, Some(node));
      var skip := ShouldBeSkipped(parentTable);
      if skip {
        return content;
      }
      r := Cell(doc, content, Some(node), None);
    }

    /** The `tableRow` replacement for a `tr`. */
    method TableRowRule(content: string, node: NodeId) returns (r: string)
      requires Valid() && node < |doc.nodes|
      modifies this
      ensures Valid()
      ensures r == RowRuleOutput(doc, content, node)
      ensures skipCache == CacheAfter(doc, old(skipCache), ParentTable(doc, Some(node)))
    {
      var parentTable := NodeParentTable(doc, Some(node));
      var skip := ShouldBeSkipped(parentTable);
      if skip {
        return content;
      }
      var t := parentTable.value;
      var borderCells := "";
      if IsHeadingRow(doc, node) {
        var colCount := TableColCount(doc, t);
        borderCells := HeadingRowBorder(doc, t, node, colCount);
      }
      r := "\n" + content + (if borderCells != "" then "\n" + borderCells else "");
    }

    /** The `table` replacement. */
    method TableRule(content: string, node: NodeId) returns (r: string)
      requires Valid() && node < |doc.nodes| && Name(doc, node) == "TABLE"
      modifies this
      ensures Valid()
      ensures r == TableRuleOutput(doc, isCodeBlock, preserveNestedTables, content, node)
      ensures skipCache == if TableShouldBeHtml(doc, isCodeBlock, preserveNestedTables, node) then old(skipCache)
                           else CacheAfter(doc, old(skipCache), Some(node))
    {
      if TableShouldBeHtml(doc, isCodeBlock, preserveNestedTables, node) {
        var html := NodeAt(doc, node).outerHtml;
        var divParent := NodeParentDiv(doc, node);
        if divParent.None? {
          return "\n\n<div>" + html + "</div>\n\n";
        } else {
          return html;
        }
      }
      var skip := ShouldBeSkipped(Some(node));
      if skip {
        return content;
      }
      r := RenderMarkdownTable(doc, content, node);
    }
  }
}
