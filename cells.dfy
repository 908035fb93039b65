/** One cell of a GFM pipe table as `cell` prints it: the index that decides the
    leading pipe, the cleaned-up and padded content, and the empty cells that
    `handleColSpan` appends for a `colspan`. */
module Cells {
  import opened JsText
  import opened Dom

  /** `s[i]` is a `|` that a GFM reader takes as a cell delimiter: one not escaped by
      a backslash in front of it. */
  predicate IsDelimiterAt(s: string, i: nat)
    requires i < |s|
  {
    s[i] == '|' && (i == 0 || s[i - 1] != '\\')
  }

  /** The number of cell delimiters in `s`. */
  function Delimiters(s: string): nat {
    if s == [] then 0
    else Delimiters(s[..|s| - 1]) + (if IsDelimiterAt(s, |s| - 1) then 1 else 0)
  }

  /** Delimiters add up over a concatenation unless `a` ends in the backslash that
      escapes a pipe at the start of `b`. */
  lemma {:induction false} DelimitersAppend(a: string, b: string)
    requires !(a != [] && b != [] && a[|a| - 1] == '\\' && b[0] == '|')
    ensures Delimiters(a + b) == Delimiters(a) + Delimiters(b)
    decreases |b|
  {
    if b == [] {
      assert a + b == a;
    } else {
      var b' := b[..|b| - 1];
      assert (a + b)[..|a + b| - 1] == a + b';
      DelimitersAppend(a, b');
      var i := |b| - 1;
      if i > 0 {
        assert (a + b)[|a| + i - 1] == b[i - 1];
      }
    }
  }

  /** A string whose every pipe is escaped has no delimiters. */
  lemma {:induction false} NoDelimiters(s: string)
    requires forall i | 0 <= i < |s| && s[i] == '|' :: 0 < i && s[i - 1] == '\\'
    ensures Delimiters(s) == 0
    decreases |s|
  {
    if s != [] {
      var s' := s[..|s| - 1];
      assert forall i | 0 <= i < |s'| :: s'[i] == s[i];
      NoDelimiters(s');
    }
  }

  /** `.replace(/\n\r/g, '<br>').replace(/\n/g, '<br>')`: every line break becomes an
      HTML break, so the cell stays on one line; text without line feeds is kept. */
  function NewlinesToBr(s: string): (r: string)
    ensures '\n' !in r
    ensures '\n' !in s ==> r == s
  {
    NoLineFeedNoBreak(s);
    ReplaceAll(ReplaceAll(s, "\n\r", "<br>"), "\n", "<br>")
  }

  lemma NoLineFeedNoBreak(s: string)
    ensures '\n' !in s ==> !HasSubstring(s, "\n\r") && !HasSubstring(s, "\n")
  {
    if HasSubstring(s, "\n\r") {
      HasSubstringHead(s, "\n\r");
    }
    if HasSubstring(s, "\n") {
      HasSubstringHead(s, "\n");
    }
  }

  /** Every line break written as `<br>` in one pass: a line feed together with a
      carriage return right after it, or a line feed alone. */
  function BreaksAsBr(s: string): string
    decreases |s|
  {
    if s == [] then []
    else if s[0] == '\n' then "<br>" + BreaksAsBr(if |s| >= 2 && s[1] == '\r' then s[2..] else s[1..])
    else [s[0]] + BreaksAsBr(s[1..])
  }

  /** The two replacements of `cell` turn each `\n\r` into one `<br>` and each other
      line feed into one `<br>`, and keep every other character. */
  lemma {:induction false} NewlinesToBrOnePass(s: string)
    ensures NewlinesToBr(s) == BreaksAsBr(s)
    decreases |s|
  {
    var pair, lf, br := "\n\r", "\n", "<br>";
    if s == [] {
    } else if s[0] == '\n' && |s| >= 2 && s[1] == '\r' {
      var t := s[2..];
      NewlinesToBrOnePass(t);
      assert s == [] + pair + t;
      ReplaceAllOccurrence([], t, pair, br);
      ReplaceAllPrefixFree(br, ReplaceAll(t, pair, br), lf, br);
      assert [] + br + ReplaceAll(t, pair, br) == br + ReplaceAll(t, pair, br);
    } else if s[0] == '\n' {
      var t := s[1..];
      NewlinesToBrOnePass(t);
      var t1 := ReplaceAll(t, pair, br);
      assert ReplaceAll(s, pair, br) == lf + t1 by {
        if |s| >= 2 {
          assert s[..2] != pair by { assert s[..2][1] == s[1]; }
        }
        assert s == lf + t;
      }
      ReplaceAllOccurrence([], t1, lf, br);
      assert [] + lf + t1 == lf + t1;
      assert [] + br + ReplaceAll(t1, lf, br) == br + ReplaceAll(t1, lf, br);
    } else {
      var t := s[1..];
      NewlinesToBrOnePass(t);
      assert s == [s[0]] + t;
      ReplaceAllPrefixFree([s[0]], t, pair, br);
      ReplaceAllPrefixFree([s[0]], ReplaceAll(t, pair, br), lf, br);
    }
  }

  /** `s` padded on the right with spaces until its `length`, counted in UTF-16 code
      units, is at least three. */
  function Padded(s: string): (r: string)
    ensures |r| >= |s| && r[..|s|] == s
    ensures forall i | |s| <= i < |r| :: r[i] == ' '
    ensures Utf16Length(r) == if Utf16Length(s) < 3 then 3 else Utf16Length(s)
    decreases 3 - Utf16Length(s)
  {
    if Utf16Length(s) < 3 then
      Utf16LengthSnoc(s, ' ');
      var r := Padded(s + " ");
      assert r[..|s|] == r[..|s| + 1][..|s|];
      r
    else
      s
  }

  /** The cleaned-up content of a cell: trimmed, line breaks as `<br>`, every run of
      pipes as one escaped pipe, padded to three characters. */
  function CellBody(content: string): string {
    Padded(EscapePipeRuns(NewlinesToBr(Trim(content))))
  }

  /** A cell body is one line of at least three characters with no delimiter in it. */
  lemma CellBodyProps(content: string)
    ensures var b := CellBody(content);
      && b != [] && Utf16Length(b) >= 3 && '\n' !in b
      && (forall i | 0 <= i < |b| && b[i] == '|' :: 0 < i && b[i - 1] == '\\')
      && Delimiters(b) == 0
      && b[0] != '|'
  {
    var e := EscapePipeRuns(NewlinesToBr(Trim(content)));
    var b := Padded(e);
    assert forall i | 0 <= i < |e| :: b[i] == e[i];
    NoDelimiters(b);
  }

  /** Text that needs no cleaning up is printed as it is. */
  lemma CellBodyKeepsPlainText(content: string)
    requires |content| >= 3 && !IsSpace(content[0]) && !IsSpace(content[|content| - 1])
    requires '\n' !in content && '|' !in content
    ensures CellBody(content) == content
  {
    assert TrimStart(content) == content;
    assert TrimEnd(content) == content;
    assert Trim(content) == content;
  }

  /** The number of columns beyond its own that a cell spans: `colspan` minus one, none
      when `colspan` is missing, not a number (NaN fails every comparison) or at most 1. */
  function ExtraColumns(colspan: Option<int>): nat {
    if colspan.Some? && colspan.value > 1 then colspan.value - 1 else 0
  }

  /** One empty cell that `handleColSpan` appends: `' | '` then three `emptyChar`. */
  function EmptySpanCell(emptyChar: string): string {
    " | " + Repeat(emptyChar, 3)
  }

  /** `handleColSpan`: appends one empty cell for every column the node spans beyond
      its own. */
  method HandleColSpan(doc: Tree, content: string, node: NodeId, emptyChar: string) returns (r: string)
    ensures r == content + Repeat(EmptySpanCell(emptyChar), ExtraColumns(NodeAt(doc, node).colspan))
  {
    var colspan := NodeAt(doc, node).colspan;
    r := content;
    assert r == content + Repeat(EmptySpanCell(emptyChar), 0);
    if colspan.Some? {
      var i := 1;
      while i < colspan.value
        invariant 1 <= i && (colspan.value > 1 ==> i <= colspan.value)
        invariant colspan.value <= 1 ==> i == 1
        invariant r == content + Repeat(EmptySpanCell(emptyChar), i - 1)
      {
        r := r + EmptySpanCell(emptyChar);
        i := i + 1;
      }
      assert ExtraColumns(colspan) == i - 1;
    }
  }

  /** The empty cells appended for `k` extra columns hold `k` delimiters, one per
      column, and no line break. */
  lemma {:induction false} SpanCellsDelimiters(k: nat)
    ensures var s := Repeat(EmptySpanCell(" "), k);
      Delimiters(s) == k && '\n' !in s && (s == [] || s[0] == ' ') && (s == [] || s[|s| - 1] == ' ')
  {
    if k > 0 {
      SpanCellsDelimiters(k - 1);
      var prev := Repeat(EmptySpanCell(" "), k - 1);
      var one := EmptySpanCell(" ");
      assert one == " |    ";
      assert Delimiters(" |") == 1;
      assert Delimiters(one) == 1 by {
        assert one[..|one| - 1] == " |   ";
        assert " |   "[..4] == " |  ";
        assert " |  "[..3] == " | ";
        assert " | "[..2] == " |";
      }
      DelimitersAppend(prev, one);
    }
  }

  /** The index `cell` prints the cell for: the given one; else, for a node that has a
      parent, its position among the parent's `childNodes`; else none. */
  function CellIndex(doc: Tree, node: Option<NodeId>, index: Option<int>): (r: Option<int>)
    ensures index.Some? ==> r == index
    ensures (index.None? && (node.None? || ParentOf(doc, node.value).None?)) ==> r.None?
  {
    if index.None? && node.Some? && ParentOf(doc, node.value).Some? then
      Some(IndexOf(Kids(doc, ParentOf(doc, node.value).value), node.value))
    else
      index
  }

  /** In a tree, a node with a parent is printed for its own position among its
      siblings. */
  lemma CellIndexOfChild(doc: Tree, node: NodeId)
    requires WF(doc) && node < |doc.nodes| && ParentOf(doc, node).Some?
    ensures var r := CellIndex(doc, Some(node), None); var sibs := Kids(doc, ParentOf(doc, node).value);
      r.Some? && 0 <= r.value < |sibs| && sibs[r.value] == node
  {
    ParentFacts(doc, node);
  }

  /** The empty cells a node's `colspan` adds; none without a node. */
  function SpanCells(doc: Tree, node: Option<NodeId>): string {
    if node.Some? then Repeat(EmptySpanCell(" "), ExtraColumns(NodeAt(doc, node.value).colspan)) else ""
  }

  /** What `cell(content, node, index)` returns. */
  function CellText(doc: Tree, content: string, node: Option<NodeId>, index: Option<int>): string {
    var prefix := if CellIndex(doc, node, index) == Some(0) then "| " else " ";
    prefix + (CellBody(content) + SpanCells(doc, node)) + " |"
  }

  /** `cell`. */
  method Cell(doc: Tree, content: string, node: Option<NodeId>, index: Option<int>) returns (r: string)
    ensures r == CellText(doc, content, node, index)
  {
    var i := index;
    if i.None? && node.Some? && ParentOf(doc, node.value).Some? {
      i := Some(IndexOf(Kids(doc, ParentOf(doc, node.value).value), node.value));
    }
    var prefix := " ";
    if i == Some(0) {
      prefix := "| ";
    }
    var filtered := NewlinesToBr(Trim(content));
    filtered := EscapePipeRuns(filtered);
    while Utf16Length(filtered) < 3
      invariant Padded(filtered) == CellBody(content)
      decreases 3 - Utf16Length(filtered)
    {
      Utf16LengthSnoc(filtered, ' ');
      filtered := filtered + " ";
    }
    assert filtered == CellBody(content);
    if node.Some? {
      filtered := HandleColSpan(doc, filtered, node.value, " ");
    }
    assert filtered == CellBody(content) + SpanCells(doc, node);
    assert prefix == if CellIndex(doc, node, index) == Some(0) then "| " else " ";
    r := prefix + filtered + " |";
  }

  /** The frame of a printed cell around its middle `m`. */
  lemma FrameOf(prefix: string, m: string, r: string)
    requires prefix == "| " || prefix == " "
    requires m != [] && m[0] != '|' && '\n' !in m
    requires r == prefix + m + " |"
    ensures |r| >= 4
    ensures r[..2] == "| " <==> prefix == "| "
    ensures prefix == " " ==> r[0] == ' '
    ensures r[|r| - 2..] == " |"
    ensures '\n' !in r
  {
    if prefix == " " {
      assert r[1] == m[0];
      assert r[..2][0] == ' ';
    } else {
      assert r[..2] == [r[0], r[1]];
    }
    assert r[|r| - 2..] == [r[|r| - 2], r[|r| - 1]];
  }

  /** A cell opens with `| ` exactly when it is printed for index 0 (else with a
      space), ends with ` |`, and stays on one line. */
  lemma CellFrame(doc: Tree, content: string, node: Option<NodeId>, index: Option<int>)
    ensures var r := CellText(doc, content, node, index);
      && |r| >= 4
      && (r[..2] == "| " <==> CellIndex(doc, node, index) == Some(0))
      && (CellIndex(doc, node, index) != Some(0) ==> r[0] == ' ')
      && r[|r| - 2..] == " |"
      && '\n' !in r
  {
    CellBodyProps(content);
    var k := if node.Some? then ExtraColumns(NodeAt(doc, node.value).colspan) else 0;
    SpanCellsDelimiters(k);
    var b := CellBody(content);
    var m := b + SpanCells(doc, node);
    assert m[0] == b[0];
    FrameOf(if CellIndex(doc, node, index) == Some(0) then "| " else " ", m, CellText(doc, content, node, index));
  }

  /** The delimiters of a printed cell around its middle `m`. */
  lemma DelimitersOfFrame(prefix: string, m: string, r: string)
    requires prefix == "| " || prefix == " "
    requires r == prefix + m + " |"
    ensures Delimiters(r) == (if prefix == "| " then 1 else 0) + Delimiters(m) + 1
  {
    assert Delimiters(prefix) == (if prefix == "| " then 1 else 0) by {
      if prefix == " " {
        assert prefix[..0] == [];
      } else {
        assert prefix[..1] == "|";
        assert "|"[..0] == [];
      }
    }
    assert Delimiters(" |") == 1 by {
      assert " |"[..1] == " ";
      assert " "[..0] == [];
    }
    DelimitersAppend(prefix, m);
    DelimitersAppend(prefix + m, " |");
  }

  /** A GFM reader finds in a cell one column per column it spans: the closing pipe
      and the pipes of the empty cells, plus the opening pipe of the first cell. */
  lemma CellDelimiters(doc: Tree, content: string, node: Option<NodeId>, index: Option<int>)
    ensures Delimiters(CellText(doc, content, node, index)) ==
      (if CellIndex(doc, node, index) == Some(0) then 1 else 0)
      + (if node.Some? then ExtraColumns(NodeAt(doc, node.value).colspan) else 0) + 1
  {
    var b := CellBody(content);
    var span := SpanCells(doc, node);
    var k := if node.Some? then ExtraColumns(NodeAt(doc, node.value).colspan) else 0;
    CellBodyProps(content);
    SpanCellsDelimiters(k);
    DelimitersAppend(b, span);
    DelimitersOfFrame(if CellIndex(doc, node, index) == Some(0) then "| " else " ", b + span,
      CellText(doc, content, node, index));
  }
}
