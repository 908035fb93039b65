/** What the table plugin reads off the tree around a table: the enclosing `div` and
    `table`, the column count, heading rows, what a table contains, and the two
    decisions taken per table (raw HTML, or skipped as a layout table). */
module TableStructure {
  import opened JsText
  import opened Dom

  /** The first strict ancestor of `n` named `tag`, walking up `parentNode`. */
  function NearestAncestorNamed(doc: Tree, n: NodeId, tag: string): (r: Option<NodeId>)
    requires WF(doc)
    ensures r.Some? ==> ParentOf(doc, n).Some? && r.value < n && Name(doc, r.value) == tag
    decreases n
  {
    match ParentOf(doc, n)
    case None => None
    case Some(p) =>
      ParentFacts(doc, n);
      if Name(doc, p) == tag then Some(p) else NearestAncestorNamed(doc, p, tag)
  }

  /** The search continued from `parent`, itself included. */
  function AncestorFrom(doc: Tree, parent: Option<NodeId>, tag: string): Option<NodeId>
    requires WF(doc)
  {
    match parent
    case None => None
    case Some(p) => if Name(doc, p) == tag then parent else NearestAncestorNamed(doc, p, tag)
  }

  /** The search finds the nearest ancestor with that name, and finds nothing only
      when no ancestor has it. */
  lemma {:induction false} NearestAncestorSpec(doc: Tree, n: NodeId, tag: string)
    requires WF(doc)
    ensures var r := NearestAncestorNamed(doc, n, tag);
      && (r.Some? ==> IsAncestor(doc, r.value, n) && Name(doc, r.value) == tag
                      && forall a: NodeId | IsAncestor(doc, a, n) && Name(doc, a) == tag :: a <= r.value)
      && (r.None? ==> forall a: NodeId | IsAncestor(doc, a, n) :: Name(doc, a) != tag)
    decreases n
  {
    match ParentOf(doc, n)
    case None =>
    case Some(p) =>
      ParentFacts(doc, n);
      NearestAncestorSpec(doc, p, tag);
      forall a: NodeId | IsAncestor(doc, a, n) && a != p
        ensures IsAncestor(doc, a, p)
      {
      }
      if Name(doc, p) != tag {
        var r := NearestAncestorNamed(doc, p, tag);
        if r.Some? {
          forall a: NodeId | IsAncestor(doc, a, n) && Name(doc, a) == tag
            ensures a <= r.value
          {
            assert IsAncestor(doc, a, p);
          }
        }
      } else {
        forall a: NodeId | IsAncestor(doc, a, n) && Name(doc, a) == tag
          ensures a <= p
        {
          if a != p {
            AncestorBelow(doc, a, p);
          }
        }
      }
  }

  /** `nodeParentDiv`: the enclosing `div`, if any. */
  method NodeParentDiv(doc: Tree, node: NodeId) returns (r: Option<NodeId>)
    requires WF(doc)
    ensures r == NearestAncestorNamed(doc, node, "DIV")
  {
    var parent := ParentOf(doc, node);
    while parent.Some? && Name(doc, parent.value) != "DIV"
      invariant AncestorFrom(doc, parent, "DIV") == NearestAncestorNamed(doc, node, "DIV")
      decreases if parent.Some? then parent.value + 1 else 0
    {
      var p := parent.value;
      parent := ParentOf(doc, p);
      if parent.None? {
        return None;
      }
      ParentFacts(doc, p);
    }
    return parent;
  }

  /** `nodeParentTable`: the enclosing `table` of a node, if any; none for no node. */
  method NodeParentTable(doc: Tree, node: Option<NodeId>) returns (r: Option<NodeId>)
    requires WF(doc)
    ensures r == ParentTable(doc, node)
  {
    if node.None? {
      return None;
    }
    var parent := ParentOf(doc, node.value);
    while parent.Some? && Name(doc, parent.value) != "TABLE"
      invariant AncestorFrom(doc, parent, "TABLE") == NearestAncestorNamed(doc, node.value, "TABLE")
      decreases if parent.Some? then parent.value + 1 else 0
    {
      var p := parent.value;
      parent := ParentOf(doc, p);
      if parent.None? {
        return None;
      }
      ParentFacts(doc, p);
    }
    return parent;
  }

  /** The table a cell or row belongs to for the plugin: its nearest `table` ancestor. */
  function ParentTable(doc: Tree, node: Option<NodeId>): (r: Option<NodeId>)
    requires WF(doc)
    ensures r.Some? ==> node.Some? && ParentOf(doc, node.value).Some? && Name(doc, r.value) == "TABLE"
    ensures r.Some? ==> r.value < node.value
  {
    if node.None? then None else NearestAncestorNamed(doc, node.value, "TABLE")
  }

  /** The largest number of `childNodes` among `rows`; 0 for no rows. */
  function MaxChildCount(doc: Tree, rows: seq<NodeId>): (m: nat)
    ensures forall i | 0 <= i < |rows| :: |Kids(doc, rows[i])| <= m
    ensures rows == [] ==> m == 0
    ensures rows != [] ==> exists i | 0 <= i < |rows| :: |Kids(doc, rows[i])| == m
  {
    if rows == [] then 0
    else
      var init := rows[..|rows| - 1];
      var m := MaxChildCount(doc, init);
      var c := |Kids(doc, rows[|rows| - 1])|;
      assert forall i | 0 <= i < |init| :: init[i] == rows[i];
      if c > m then c else m
  }

  /** `tableColCount`: the number of columns of a table, counted over `childNodes`, so
      that white-space text nodes between cells count as columns too. */
  method TableColCount(doc: Tree, t: NodeId) returns (maxColCount: nat)
    ensures maxColCount == MaxChildCount(doc, Rows(doc, t))
  {
    maxColCount := CountColumns(doc, Rows(doc, t));
  }

  /** The loop of `tableColCount` over the rows. */
  method CountColumns(doc: Tree, rows: seq<NodeId>) returns (maxColCount: nat)
    ensures maxColCount == MaxChildCount(doc, rows)
  {
    maxColCount := 0;
    var i := 0;
    while i < |rows|
      invariant 0 <= i <= |rows|
      invariant maxColCount == MaxChildCount(doc, rows[..i])
    {
      assert rows[..i + 1][..i] == rows[..i];
      var colCount := |Kids(doc, rows[i])|;
      if colCount > maxColCount {
        maxColCount := colCount;
      }
      i := i + 1;
    }
    assert rows[..i] == rows;
  }

  /** `isFirstTbody`: a `tbody` that comes first, or right after a `thead` holding
      nothing but white space. */
  predicate IsFirstTbody(doc: Tree, e: NodeId) {
    && Name(doc, e) == "TBODY"
    && match PreviousSibling(doc, e)
       case None => true
       case Some(s) => Name(doc, s) == "THEAD" && AllSpace(NodeAt(doc, s).text)
  }

  /** A first `tbody` is a `tbody` that has no parent, comes first among its siblings,
      or comes right after a `thead` holding nothing but white space. */
  lemma FirstTbodyIff(doc: Tree, e: NodeId)
    requires WF(doc) && e < |doc.nodes|
    ensures IsFirstTbody(doc, e) <==>
      && Name(doc, e) == "TBODY"
      && (|| ParentOf(doc, e).None?
          || Kids(doc, ParentOf(doc, e).value)[0] == e
          || var kids := Kids(doc, ParentOf(doc, e).value);
             exists i | 0 < i < |kids| :: kids[i] == e && Name(doc, kids[i - 1]) == "THEAD"
                                          && AllSpace(NodeAt(doc, kids[i - 1]).text))
  {
    PreviousSiblingSpec(doc, e);
    if ParentOf(doc, e).Some? {
      var p := ParentOf(doc, e).value;
      var kids := Kids(doc, p);
      ParentFacts(doc, e);
      match PreviousSibling(doc, e)
      case None =>
      case Some(s) =>
        var j :| 0 < j < |kids| && kids[j] == e && kids[j - 1] == s;
        assert kids[0] != e by {
          assert doc.nodes[p].children == kids;
        }
        forall i | 0 < i < |kids| && kids[i] == e
          ensures i == j
        {
          assert doc.nodes[p].children == kids;
        }
    }
  }

  /** Every child of `tr` is a `th`. */
  predicate AllHeaderCells(doc: Tree, tr: NodeId) {
    forall i | 0 <= i < |Kids(doc, tr)| :: Name(doc, Kids(doc, tr)[i]) == "TH"
  }

  /** `isHeadingRow`: a row of a `thead`, or the first child of a table or of its first
      `tbody` when all its children are `th` cells. The source reads the parent's
      `nodeName` without a check, so a row without a parent is outside its domain. */
  predicate IsHeadingRow(doc: Tree, tr: NodeId)
    requires ParentOf(doc, tr).Some?
  {
    var p := ParentOf(doc, tr).value;
    || Name(doc, p) == "THEAD"
    || (&& FirstChild(doc, p) == Some(tr)
        && (Name(doc, p) == "TABLE" || IsFirstTbody(doc, p))
        && AllHeaderCells(doc, tr))
  }

  /** Outside a `thead`, a section has at most one heading row: its first child. */
  lemma HeadingRowUnique(doc: Tree, a: NodeId, b: NodeId)
    requires ParentOf(doc, a).Some? && ParentOf(doc, a) == ParentOf(doc, b)
    requires Name(doc, ParentOf(doc, a).value) != "THEAD"
    requires IsHeadingRow(doc, a) && IsHeadingRow(doc, b)
    ensures a == b && Kids(doc, ParentOf(doc, a).value)[0] == a
  {
  }

  /** What `nodeContains` looks for: code blocks, or elements with one of the names. */
  datatype Wanted = Code | Tags(names: seq<string>)

  predicate IsWanted(doc: Tree, isCodeBlock: NodeId -> bool, types: Wanted, d: NodeId) {
    match types
    case Code => isCodeBlock(d)
    case Tags(names) => Name(doc, d) in names
  }

  function WantedBy(doc: Tree, isCodeBlock: NodeId -> bool, types: Wanted): NodeId -> bool {
    (d: NodeId) => IsWanted(doc, isCodeBlock, types, d)
  }

  /** `nodeContains(node, types)`, with Turndown's `isCodeBlock` as a parameter. */
  function NodeContains(doc: Tree, isCodeBlock: NodeId -> bool, n: NodeId, types: Wanted): bool
    requires WF(doc) && n < |doc.nodes|
  {
    SubtreeAny(doc, n, WantedBy(doc, isCodeBlock, types))
  }

  /** `nodeContains` holds exactly when some strict descendant is wanted. */
  lemma NodeContainsIff(doc: Tree, isCodeBlock: NodeId -> bool, n: NodeId, types: Wanted)
    requires WF(doc) && n < |doc.nodes|
    ensures NodeContains(doc, isCodeBlock, n, types) <==>
      exists d: NodeId | n < d < |doc.nodes| :: IsAncestor(doc, n, d) && IsWanted(doc, isCodeBlock, types, d)
  {
    SubtreeAnyIff(doc, n, WantedBy(doc, isCodeBlock, types));
  }

  function IsTableNode(doc: Tree): NodeId -> bool {
    (d: NodeId) => Name(doc, d) == "TABLE"
  }

  /** `nodeContainsTable`. */
  function NodeContainsTable(doc: Tree, n: NodeId): bool
    requires WF(doc) && n < |doc.nodes|
  {
    SubtreeAny(doc, n, IsTableNode(doc))
  }

  /** `nodeContainsTable` holds exactly when a strict descendant is a `table`. */
  lemma NodeContainsTableIff(doc: Tree, n: NodeId)
    requires WF(doc) && n < |doc.nodes|
    ensures NodeContainsTable(doc, n) <==>
      exists d: NodeId | n < d < |doc.nodes| :: IsAncestor(doc, n, d) && Name(doc, d) == "TABLE"
  {
    SubtreeAnyIff(doc, n, IsTableNode(doc));
  }

  /** The block elements that force a table to stay HTML; `TABLE` joins them when
      nested tables are to be preserved. */
  function HtmlBlockTags(preserveNestedTables: bool): seq<string> {
    ["UL", "OL", "H1", "H2", "H3", "H4", "H5", "H6", "HR", "BLOCKQUOTE"]
    + (if preserveNestedTables then ["TABLE"] else [])
  }

  /** `tableShouldBeHtml`. */
  function TableShouldBeHtml(doc: Tree, isCodeBlock: NodeId -> bool, preserveNestedTables: bool, t: NodeId): bool
    requires WF(doc) && t < |doc.nodes|
  {
    NodeContains(doc, isCodeBlock, t, Code)
    || NodeContains(doc, isCodeBlock, t, Tags(HtmlBlockTags(preserveNestedTables)))
  }

  /** An element that markdown tables cannot hold. */
  predicate ForcesHtml(doc: Tree, isCodeBlock: NodeId -> bool, preserveNestedTables: bool, d: NodeId) {
    || isCodeBlock(d)
    || Name(doc, d) in {"UL", "OL", "H1", "H2", "H3", "H4", "H5", "H6", "HR", "BLOCKQUOTE"}
    || (preserveNestedTables && Name(doc, d) == "TABLE")
  }

  /** A table stays HTML exactly when some strict descendant is a code block, a list,
      a heading, a rule or a quotation, or, with `preserveNestedTables`, a table; the
      table node itself is never tested. */
  lemma TableShouldBeHtmlIff(doc: Tree, isCodeBlock: NodeId -> bool, preserveNestedTables: bool, t: NodeId)
    requires WF(doc) && t < |doc.nodes|
    ensures TableShouldBeHtml(doc, isCodeBlock, preserveNestedTables, t) <==>
      exists d: NodeId | t < d < |doc.nodes| :: IsAncestor(doc, t, d) && ForcesHtml(doc, isCodeBlock, preserveNestedTables, d)
  {
    NodeContainsIff(doc, isCodeBlock, t, Code);
    NodeContainsIff(doc, isCodeBlock, t, Tags(HtmlBlockTags(preserveNestedTables)));
    var tags := HtmlBlockTags(preserveNestedTables);
    assert forall d :: Name(doc, d) in tags <==>
      Name(doc, d) in {"UL", "OL", "H1", "H2", "H3", "H4", "H5", "H6", "HR", "BLOCKQUOTE"}
      || (preserveNestedTables && Name(doc, d) == "TABLE");
  }

  /** `tableShouldBeSkipped_`: anything but a table (which has no `rows`), a table of
      a single row with at most one child node, and a table holding another table.
      A table without rows still has an (empty) `rows` collection, which is truthy,
      so it is not skipped. */
  function ShouldBeSkippedUncached(doc: Tree, t: NodeId): bool
    requires WF(doc) && t < |doc.nodes|
  {
    if Name(doc, t) != "TABLE" then true
    else if |Rows(doc, t)| == 1 && |Kids(doc, Rows(doc, t)[0])| <= 1 then true
    else NodeContainsTable(doc, t)
  }

  /** A table is skipped exactly when it has a single row with at most one child node
      or a strict descendant that is a table. */
  lemma SkippedTableIff(doc: Tree, t: NodeId)
    requires WF(doc) && t < |doc.nodes| && Name(doc, t) == "TABLE"
    ensures ShouldBeSkippedUncached(doc, t) <==>
      || (|Rows(doc, t)| == 1 && |Kids(doc, Rows(doc, t)[0])| <= 1)
      || exists d: NodeId | t < d < |doc.nodes| :: IsAncestor(doc, t, d) && Name(doc, d) == "TABLE"
  {
    NodeContainsTableIff(doc, t);
  }

  /** A table that holds another table is never printed as a pipe table: either it is
      kept as HTML (nested tables preserved) or it is skipped. */
  lemma NestedTableNeverPipeTable(doc: Tree, isCodeBlock: NodeId -> bool, preserveNestedTables: bool, t: NodeId, d: NodeId)
    requires WF(doc) && t < d < |doc.nodes| && IsAncestor(doc, t, d) && Name(doc, d) == "TABLE"
    ensures ShouldBeSkippedUncached(doc, t)
    ensures preserveNestedTables ==> TableShouldBeHtml(doc, isCodeBlock, preserveNestedTables, t)
  {
    NodeContainsTableIff(doc, t);
    TableShouldBeHtmlIff(doc, isCodeBlock, preserveNestedTables, t);
    assert ForcesHtml(doc, isCodeBlock, preserveNestedTables, d) <== preserveNestedTables;
  }

  /** The first child of a table named `CAPTION`: `HTMLTableElement.caption`. */
  function FirstCaption(doc: Tree, kids: seq<NodeId>): (r: Option<NodeId>)
    ensures r.Some? ==> Name(doc, r.value) == "CAPTION"
    ensures r.Some? ==> exists i | 0 <= i < |kids| ::
      kids[i] == r.value && forall j | 0 <= j < i :: Name(doc, kids[j]) != "CAPTION"
    ensures r.None? ==> forall i | 0 <= i < |kids| :: Name(doc, kids[i]) != "CAPTION"
  {
    if kids == [] then None
    else if Name(doc, kids[0]) == "CAPTION" then Some(kids[0])
    else
      var r := FirstCaption(doc, kids[1..]);
      assert forall i | 1 <= i < |kids| :: kids[i] == kids[1..][i - 1];
      r
  }

  /** The caption text of a table: the `textContent` of its caption, "" without one. */
  function CaptionText(doc: Tree, t: NodeId): string {
    match FirstCaption(doc, Kids(doc, t))
    case None => ""
    case Some(c) => NodeAt(doc, c).text
  }
}
