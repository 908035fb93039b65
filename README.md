# Markdown tables plugin for Turndown — a Dafny model

This project models the table plugin of the web clipper's HTML-to-Markdown converter
(`src/contentScript/md-tables-plugin.ts`). The plugin registers rules with Turndown
for `table`, `tr`, `th`/`td`, `caption`, `colgroup`/`col` and `thead`/`tbody`/`tfoot`.
It also registers a `keep` filter. Together these turn an HTML table into a GitHub
Flavoured Markdown (GFM) pipe table. There are two exceptions:
- A table stays raw HTML when a pipe table cannot hold its contents. Examples are a
  code block, a list, a heading, a rule, a quotation, or a nested table when nested
  tables are preserved.
- A table is skipped (its content passes through unchanged) when it looks like a
  layout table. That is a single row with at most one child, or a table that holds
  another table.

The files and what they hold:

- `dom.dfy` (module `Dom`): the part of the DOM the plugin reads, stored as an
  arena of nodes. Each node has a `nodeName`, an `align` attribute, a `style.textAlign`,
  a parsed `colspan`, `textContent`, `outerHTML`, a parent and ordered children.
  - `Rows` is `HTMLTableElement.rows`: the `thead` rows, then the table's own rows and
    `tbody` rows, then the `tfoot` rows.
  - `SubtreeAny` is a search over strict descendants.
- `js_text.dfy` (module `JsText`): the JavaScript string operations the plugin uses,
  written out on `seq<char>`. These are `trim`/`trimStart`/`trimEnd` over the `\s`
  set, `replace(/c+/g, …)`, the global literal replace, `split`/`join`, `repeat`, and
  `toLowerCase` on ASCII letters.
- `alignment.dfy` (module `Alignment`):
  - `getAlignment` and `getBorder`;
  - the vote of `getColumnAlignment`, specified by `IsColumnWinner`. The winning
    alignment has the most votes. Among equals it is the one that reached that count
    first, scanning the rows in order. An alignment other than `left`, `right`,
    `center` or `""` never wins, because its vote counter is `NaN`.
- `cells.dfy` (module `Cells`): `cell` and `handleColSpan`. `Delimiters` counts the
  unescaped pipes, which is how a GFM reader counts the cells of a line.
- `structure.dfy` (module `TableStructure`):
  - `nodeParentDiv` and `nodeParentTable`;
  - `tableColCount`, `isHeadingRow` and `isFirstTbody`;
  - `nodeContains` and `nodeContainsTable`;
  - `tableShouldBeHtml` and `tableShouldBeSkipped_`;
  - the table's caption text.
- `findings.dfy` (module `ColspanBorder`): the border row under a heading row whose
  cells span several columns, as the code prints it and as it is evidently meant.
- `rules.dfy` (module `TableRules`):
  - The rule filters, and what each rule replacement prints, as functions.
  - The loops of the `tableRow` and `table` replacements, as methods proved equal to
    those functions.
  - The class `TablesPlugin`. It holds the state `tables()` sets up (`isCodeBlock`, the
    `preserveNestedTables` option) and the `tableShouldBeSkipped` cache. Its invariant
    is that every cached answer is the one `tableShouldBeSkipped_` computes.

Main properties proved:
- The rule filters never overlap.
- The `keep` filter and the `table` rule agree on which tables stay HTML.
- A table holding another table is never printed as a pipe table.
- The border row under a heading row is one line that passes the plugin's own
  delimiter-row test (`| ---` or `| :---` somewhere in the line). It has one
  delimiter per cell boundary, spanned columns included. With a heading cell of
  `colspan > 1` that is more cells than the table has columns, one of them blank, so
  it is then not a GFM delimiter row (see Findings).
- The synthesized header is two lines with `columnCount + 1` delimiters each. The
  second line is a delimiter row.
- A heading row's border makes the `table` rule leave out the synthesized header.
- Every cell body has no line feed and no unescaped pipe. A printed cell holds its
  closing delimiter, the opening one in the first column, and one more for each
  column it spans beyond its own. (A lone carriage return survives, because the code
  replaces `\n\r`, not `\r\n`.)
- The column vote's winner is unique and is one of the four keys.
- Reading the colons of a delimiter cell back is a left inverse of `getBorder`: it
  gives back the alignment key the cell was made from.
- The skip cache always holds the uncached answer.

Points where the code's behaviour is easy to misread, and which the model follows
exactly:
- **Ties in the column vote.** A tie goes to the alignment that first reached the
  winning count, not to a fixed order of keys.
- **Tables without rows.** An empty `rows` collection is truthy, so a table with no
  rows is not skipped.
- **Upper case.** `toLowerCase` is applied to both `align` and `style.textAlign`, so
  `align="CENTER"` counts as `center`.
- **Lengths.** `.length` counts UTF-16 code units, so the three-character minimum of
  a cell counts a character outside the Basic Multilingual Plane twice.

## Model

| member | source | states |
|---|---|---|
| JsText.Trim | src/contentScript/md-tables-plugin.ts:119 | `trim` cuts only white space from both ends and leaves no white space at either end |
| JsText.TrimStart | src/contentScript/md-tables-plugin.ts:135 | `trimStart` returns a suffix, after a prefix of white space only, that does not start with white space |
| JsText.TrimEnd | src/contentScript/md-tables-plugin.ts:119 | `trimEnd` returns a prefix, before a suffix of white space only, that does not end with white space |
| JsText.TrimStartAfterSpace | src/contentScript/md-tables-plugin.ts:135 | leading white space in front of a text does not change what `trimStart` leaves |
| JsText.TrimStartBefore | src/contentScript/md-tables-plugin.ts:135 | `trimStart` stops inside a prefix that is not all white space, leaving what follows untouched |
| JsText.TrimEndAfter | src/contentScript/md-tables-plugin.ts:119 | `trimEnd` never cuts into text that ends in a non-space character |
| JsText.ReplaceAll | src/contentScript/md-tables-plugin.ts:185 | a global literal replacement leaves text without the pattern unchanged and adds no character absent from the text and the replacement; its full meaning is in the four rows below |
| JsText.ReplaceAllChar | src/contentScript/md-tables-plugin.ts:185 | replacing every occurrence of one character is splitting at it and joining the pieces with the replacement |
| JsText.ReplaceAllPrefixFree | src/contentScript/md-tables-plugin.ts:185 | a prefix that cannot start the pattern passes through the replacement unchanged |
| JsText.ReplaceAllOccurrence | src/contentScript/md-tables-plugin.ts:185 | the first occurrence after such a prefix is replaced, and the scan resumes right after it |
| JsText.ReplaceAllSkip | src/contentScript/md-tables-plugin.ts:185 | a text that does not open with the pattern keeps its first character, and the scan resumes at the next one; with `ReplaceAllOccurrence` for a text that does open with it, this fixes the result for every text and pattern |
| JsText.CollapseNewlines | src/contentScript/md-tables-plugin.ts:117 | `replace(/\n+/g, '\n')` leaves no two line feeds in a row and keeps every other character in order |
| JsText.SquashRun | src/contentScript/md-tables-plugin.ts:117 | squashing repeats turns a run at the front into one character |
| JsText.ReplaceRunsSquash | src/contentScript/md-tables-plugin.ts:117 | replacing every run of a character is squashing each run to one character, then replacing every occurrence |
| JsText.CollapseNewlinesSquashes | src/contentScript/md-tables-plugin.ts:117 | collapsing line feeds is exactly squashing every run of line feeds to one |
| JsText.ReplaceRunsStart | src/contentScript/md-tables-plugin.ts:117 | after the run replacement, the text does not start with the replaced character |
| JsText.ReplaceRunsAbsent | src/contentScript/md-tables-plugin.ts:117 | the run replacement leaves text without the character unchanged |
| JsText.ReplaceRunsPrefixFree | src/contentScript/md-tables-plugin.ts:117 | a prefix without the character passes through the run replacement unchanged |
| JsText.EscapePipeRuns | src/contentScript/md-tables-plugin.ts:186 | after `replace(/\|+/g, '\\|')` every pipe is escaped by a backslash; text without pipes is unchanged, and no line feed appears |
| JsText.EscapePipeRunsSquashes | src/contentScript/md-tables-plugin.ts:186 | escaping pipes is squashing every run of pipes to one, splitting at the pipes and joining the pieces with `\\\|` |
| JsText.Split | src/contentScript/md-tables-plugin.ts:119 | `split('\n')` gives at least one piece and no piece holds a line feed |
| JsText.JoinSplit | src/contentScript/md-tables-plugin.ts:119 | joining the pieces of a split gives the text back |
| JsText.SplitJoin | src/contentScript/md-tables-plugin.ts:119 | splitting the join of separator-free lines gives the lines back |
| JsText.SplitPrepend | src/contentScript/md-tables-plugin.ts:119 | a separator-free prefix joins the first line of the split |
| JsText.Repeat | src/contentScript/md-tables-plugin.ts:127 | `repeat(n)` has `n` times the length |
| JsText.RepeatCopies | src/contentScript/md-tables-plugin.ts:127 | `repeat(n)` is `n` copies of the text: empty for 0, else the text followed by a sequence in which each character repeats the one a text length earlier |
| JsText.Utf16Length | src/contentScript/md-tables-plugin.ts:187 | `.length` counts UTF-16 code units: the number of characters plus the number of characters outside the Basic Multilingual Plane, so at least one per character and 0 only for the empty text |
| JsText.AsciiLower | src/contentScript/md-tables-plugin.ts:38 | `toLowerCase` keeps the length, maps every upper-case ASCII letter to its lower-case letter and keeps every other character |
| Dom.IndexOf | src/contentScript/md-tables-plugin.ts:181 | `indexOf` is -1 exactly when the node is absent, else the position of its first occurrence |
| Dom.PreviousSibling | src/contentScript/md-tables-plugin.ts:171 | only a node with a parent has a previous sibling |
| Dom.PreviousSiblingSpec | src/contentScript/md-tables-plugin.ts:171 | `previousSibling` is none exactly for a node without a parent or first among its siblings, else the sibling just before it |
| Dom.SubtreeAnyIff | src/contentScript/md-tables-plugin.ts:192-214 | the recursive descent over `childNodes` finds a node exactly when some strict descendant satisfies the test |
| Dom.TrKidsIff | src/contentScript/md-tables-plugin.ts:274-276 | a row among the children is exactly a `TR` child |
| Dom.SectionRowsIff | src/contentScript/md-tables-plugin.ts:274-276 | the rows of a section are exactly the `TR` children of the table's sections with that name |
| Dom.BodyRowsIff | src/contentScript/md-tables-plugin.ts:274-276 | the body rows are exactly the table's own `TR` children and the `TR` children of its `tbody` sections |
| Dom.RowsIff | src/contentScript/md-tables-plugin.ts:274-276 | `rows` holds exactly the table's own rows and the rows of its `thead`, `tbody` and `tfoot` |
| Dom.Rows | src/contentScript/md-tables-plugin.ts:274-276 | `HTMLTableElement.rows`; what it holds is stated by `Dom.RowsIff` |
| Alignment.GetAlignment | src/contentScript/md-tables-plugin.ts:35-39 | no node gives ""; otherwise the `align` attribute when set, else `style.textAlign`, with every upper-case letter lowered |
| Alignment.VotesSnoc | src/contentScript/md-tables-plugin.ts:58-59 | a cell adds one vote to its own alignment and none to the others |
| Alignment.VotesPrefix | src/contentScript/md-tables-plugin.ts:55-59 | votes only grow as rows are scanned |
| Alignment.WinnerStep | src/contentScript/md-tables-plugin.ts:59-63 | one vote and the strict comparison keep the winner property |
| Alignment.ColumnWinner | src/contentScript/md-tables-plugin.ts:53-67 | the vote returns one of `left`, `right`, `center` and `""` |
| Alignment.ColumnWinnerCorrect | src/contentScript/md-tables-plugin.ts:53-67 | the vote returns an alignment with the most votes, the first to reach that count, and only a key that got votes (else "") |
| Alignment.ReachedApart | src/contentScript/md-tables-plugin.ts:55-63 | two alignments with the same count reached it at different rows |
| Alignment.ColumnWinnerUnique | src/contentScript/md-tables-plugin.ts:53-67 | at most one alignment meets the winner property, so the vote's result is determined |
| Alignment.ColumnAlignment | src/contentScript/md-tables-plugin.ts:45-68 | a column's alignment is always one of the four keys |
| Alignment.ColumnAlignmentIsWinner | src/contentScript/md-tables-plugin.ts:45-68 | a column's alignment is the winner of the votes of the cells in that column, over `rows` in order |
| Alignment.NoCellsNoAlignments | src/contentScript/md-tables-plugin.ts:57 | rows too short for a column cast no vote for it |
| Alignment.NoCellsUnaligned | src/contentScript/md-tables-plugin.ts:53-67 | a column that no row reaches gets "" |
| Alignment.CellsStep | src/contentScript/md-tables-plugin.ts:55-58 | one more row adds its cell's alignment, if it has a cell in that column |
| Alignment.WinnerSnoc | src/contentScript/md-tables-plugin.ts:59-63 | one more vote replaces the leader exactly when the new count is strictly larger |
| Alignment.CastVote | src/contentScript/md-tables-plugin.ts:58-63 | one step of the vote keeps the counters and the leader equal to the votes cast so far and their winner |
| Alignment.TallyColumn | src/contentScript/md-tables-plugin.ts:55-67 | the loop returns the winner of the column's votes |
| Alignment.GetColumnAlignment | src/contentScript/md-tables-plugin.ts:45-68 | `getColumnAlignment` returns the column's alignment |
| Alignment.GetBorder | src/contentScript/md-tables-plugin.ts:41-43 | a border is dashes with a colon at the left for `left`/`center` and at the right for `right`/`center`, and starts `---` or `:---` |
| Alignment.BorderRoundTrip | src/contentScript/md-tables-plugin.ts:28 | reading the colons of a border back gives the alignment it was made from |
| Cells.DelimitersAppend | src/contentScript/md-tables-plugin.ts:189 | the cell count of concatenated text adds up unless a backslash escapes a pipe across the join |
| Cells.NoDelimiters | src/contentScript/md-tables-plugin.ts:186 | text whose pipes are all escaped has no cell delimiter |
| Cells.NewlinesToBr | src/contentScript/md-tables-plugin.ts:185 | after the `<br>` replacements no line feed is left; text without line feeds is unchanged |
| Cells.NewlinesToBrOnePass | src/contentScript/md-tables-plugin.ts:185 | the two replacements equal one left-to-right pass that writes `<br>` for each `\n\r` pair and each other line feed, and copies every other character |
| Cells.Padded | src/contentScript/md-tables-plugin.ts:187 | the padding keeps the text as a prefix, appends only spaces, and stops at a `length` of three UTF-16 code units, or adds none to a text already that long |
| Cells.CellBodyProps | src/contentScript/md-tables-plugin.ts:185-187 | a cleaned-up cell body has no line feed, a `length` of at least three UTF-16 code units, no cell delimiter and no leading pipe |
| Cells.CellBodyKeepsPlainText | src/contentScript/md-tables-plugin.ts:185-187 | text of three or more characters without pipes, line feeds or outer spaces is printed as it is |
| Cells.HandleColSpan | src/contentScript/md-tables-plugin.ts:264-270 | `handleColSpan` appends one empty cell per spanned column beyond the first, none for a missing, `NaN` or at most 1 `colspan` |
| Cells.SpanCellsDelimiters | src/contentScript/md-tables-plugin.ts:266-268 | the empty cells for `k` extra columns add exactly `k` delimiters and no line break |
| Cells.CellIndex | src/contentScript/md-tables-plugin.ts:180-182 | a given index is used as is; without an index or a parent there is none |
| Cells.CellIndexOfChild | src/contentScript/md-tables-plugin.ts:180-182 | a node with a parent is printed for its own position among its siblings |
| Cells.Cell | src/contentScript/md-tables-plugin.ts:179-190 | `cell` returns the prefix, the cleaned-up body padded to a `length` of three UTF-16 code units, and the span cells, closed by ` \|` |
| Cells.CellText | src/contentScript/md-tables-plugin.ts:179-190 | what `cell` returns; `Cells.Cell` is proved to compute it, and `Cells.CellFrame` and `Cells.CellDelimiters` state its frame and its delimiters |
| Cells.FrameOf | src/contentScript/md-tables-plugin.ts:183-189 | a printed cell opens with `\| ` exactly when its prefix is the first-column one, ends with ` \|` and holds no line feed |
| Cells.CellFrame | src/contentScript/md-tables-plugin.ts:183-189 | a cell opens with `\| ` exactly when printed for index 0, ends with ` \|`, and holds no line feed |
| Cells.DelimitersOfFrame | src/contentScript/md-tables-plugin.ts:183-189 | the frame of a cell adds its closing pipe, and its opening pipe for the first column |
| Cells.CellDelimiters | src/contentScript/md-tables-plugin.ts:179-190 | a cell has one delimiter, one more in the first column, and one per extra spanned column |
| TableStructure.NearestAncestorNamed | src/contentScript/md-tables-plugin.ts:245-262 | the walk up `parentNode` finds a strict ancestor with the name, or none |
| TableStructure.NearestAncestorSpec | src/contentScript/md-tables-plugin.ts:245-262 | the walk finds the nearest ancestor with the name, and finds none exactly when no ancestor has it |
| TableStructure.NodeParentDiv | src/contentScript/md-tables-plugin.ts:245-252 | `nodeParentDiv` returns the nearest `DIV` ancestor |
| TableStructure.NodeParentTable | src/contentScript/md-tables-plugin.ts:254-262 | `nodeParentTable` returns the nearest `TABLE` ancestor, none for no node |
| TableStructure.ParentTable | src/contentScript/md-tables-plugin.ts:254-262 | a parent table is a `TABLE` above the node |
| TableStructure.MaxChildCount | src/contentScript/md-tables-plugin.ts:272-280 | the column count bounds every row's child count and equals one of them, 0 without rows |
| TableStructure.TableColCount | src/contentScript/md-tables-plugin.ts:272-280 | `tableColCount` returns the largest child count of the table's rows |
| TableStructure.CountColumns | src/contentScript/md-tables-plugin.ts:273-279 | the loop returns the largest child count of the rows |
| TableStructure.HeadingRowUnique | src/contentScript/md-tables-plugin.ts:158-168 | outside a `thead`, a section has at most one heading row, its first child |
| TableStructure.NodeContainsIff | src/contentScript/md-tables-plugin.ts:203-214 | `nodeContains` holds exactly when some strict descendant is a code block, or has one of the names |
| TableStructure.NodeContainsTableIff | src/contentScript/md-tables-plugin.ts:192-201 | `nodeContainsTable` holds exactly when some strict descendant is a `TABLE` |
| TableStructure.TableShouldBeHtmlIff | src/contentScript/md-tables-plugin.ts:216-222 | a table stays HTML exactly when a strict descendant is a code block, a list, a heading, a rule, a quotation, or, with nested tables preserved, a table |
| TableStructure.SkippedTableIff | src/contentScript/md-tables-plugin.ts:236-243 | a table is skipped exactly when it has a single row with at most one child, or a nested table |
| TableStructure.NestedTableNeverPipeTable | src/contentScript/md-tables-plugin.ts:216-243 | a table holding a table is skipped, and is kept as HTML when nested tables are preserved |
| TableStructure.FirstCaption | src/contentScript/md-tables-plugin.ts:133 | `caption` is the first `CAPTION` child, none when there is none |
| TableStructure.CaptionText | src/contentScript/md-tables-plugin.ts:133-134 | the caption's text, "" without a caption; which caption is read is stated by `TableStructure.FirstCaption` |
| TableStructure.IsFirstTbody | src/contentScript/md-tables-plugin.ts:170-177 | `isFirstTbody`; `TableStructure.FirstTbodyIff` states it in terms of the element's position among its siblings |
| TableStructure.FirstTbodyIff | src/contentScript/md-tables-plugin.ts:170-177 | a `tbody` is the first one exactly when it has no parent, is its parent's first child, or follows a `thead` whose text is all white space |
| TableStructure.IsHeadingRow | src/contentScript/md-tables-plugin.ts:158-168 | `isHeadingRow`, written as the code reads; `TableStructure.HeadingRowUnique` proves that outside a `thead` only the first child of a section can be one, `TableStructure.FirstTbodyIff` covers its `isFirstTbody` part, and `TableRules.HeadingRowOutput` what the row rule prints for one; no contract restates the whole test |
| TableStructure.NodeContains | src/contentScript/md-tables-plugin.ts:203-214 | `nodeContains`; `TableStructure.NodeContainsIff` states which descendants it finds |
| TableStructure.NodeContainsTable | src/contentScript/md-tables-plugin.ts:192-201 | `nodeContainsTable`; `TableStructure.NodeContainsTableIff` states which descendants it finds |
| TableStructure.TableShouldBeHtml | src/contentScript/md-tables-plugin.ts:216-222 | `tableShouldBeHtml`; `TableStructure.TableShouldBeHtmlIff` states when it holds |
| TableStructure.ShouldBeSkippedUncached | src/contentScript/md-tables-plugin.ts:236-243 | `tableShouldBeSkipped_`; `TableStructure.SkippedTableIff` states when it holds |
| TableRules.RuleForIff | src/contentScript/md-tables-plugin.ts:70-156 | a node goes to a rule exactly when that rule's filter selects it: the filters do not overlap |
| TableRules.CellRuleOutput | src/contentScript/md-tables-plugin.ts:70-76 | the `tableCell` replacement; `TableRules.TablesPlugin.TableCellRule` is proved to compute it |
| TableRules.RowRuleOutput | src/contentScript/md-tables-plugin.ts:78-96 | the `tableRow` replacement; `TableRules.TablesPlugin.TableRowRule` is proved to compute it and `TableRules.HeadingRowOutput` states its shape under a heading row |
| TableRules.TableRuleOutput | src/contentScript/md-tables-plugin.ts:98-139 | the `table` replacement; `TableRules.TablesPlugin.TableRule` is proved to compute it, and `TableRules.NestedTableRuleOutput`, `TableRules.SingleCellTableRuleOutput` and `TableRules.HeadingRowSuppressesEmptyHeader` state its cases |
| TableRules.HtmlTable | src/contentScript/md-tables-plugin.ts:106-113 | the HTML branch of the `table` rule; `TableRules.HtmlTableShape` states its two forms |
| TableRules.MarkdownTable | src/contentScript/md-tables-plugin.ts:115-136 | the pipe-table branch of the `table` rule; `TableRules.RenderMarkdownTable` computes it, `TableRules.MarkdownTableShape` and `TableRules.MarkdownTableWithHeader` state its output |
| TableRules.EmptyHeader | src/contentScript/md-tables-plugin.ts:124-131 | the synthesized header; `TableRules.EmptyHeaderShape` states its two lines |
| TableRules.IsDividerLine | src/contentScript/md-tables-plugin.ts:122 | the delimiter-row test `/\| :?---/`; `TableRules.DividerAtStart` and `TableRules.DividerCell` state which lines pass it |
| TableRules.PassiveRuleOutput | src/contentScript/md-tables-plugin.ts:141-156 | captions and column groups print nothing; row groups print their rows |
| TableRules.ColumnAlignments | src/contentScript/md-tables-plugin.ts:88-90 | one alignment key per column |
| TableRules.DividerAtStart | src/contentScript/md-tables-plugin.ts:122 | a line opening with `\| ` and a border matches the delimiter-row test |
| TableRules.BorderIsPlainText | src/contentScript/md-tables-plugin.ts:185-187 | `cell` prints a border unchanged |
| TableRules.DividerCell | src/contentScript/md-tables-plugin.ts:122 | a first-column border cell matches the delimiter-row test |
| TableRules.FirstBorderCell | src/contentScript/md-tables-plugin.ts:88-91 | the first border cell under a heading row matches the delimiter-row test |
| TableRules.IndexedCellFrame | src/contentScript/md-tables-plugin.ts:91 | a cell printed for an index holds no line feed, ends in a pipe, and opens with a space after the first column |
| TableRules.IndexedCellDelimiters | src/contentScript/md-tables-plugin.ts:91 | a cell printed for an index has one delimiter, one more in the first column, and one per extra spanned column |
| TableRules.AppendBorderCell | src/contentScript/md-tables-plugin.ts:91 | appending a border cell keeps the row free of line feeds, a delimiter row and ending in a pipe, and adds its delimiters |
| TableRules.BorderCellsShape | src/contentScript/md-tables-plugin.ts:86-93 | the border row is one line and, for one or more columns, a delimiter row ending in a pipe with one delimiter per cell boundary, spanned columns included |
| TableRules.BlankCells | src/contentScript/md-tables-plugin.ts:127 | the blank header line has `k + 1` delimiters and holds only spaces and pipes |
| TableRules.HeaderBorderCell | src/contentScript/md-tables-plugin.ts:129 | one delimiter cell of the synthesized header adds one delimiter and makes a delimiter row after the opening pipe |
| TableRules.PipeShape | src/contentScript/md-tables-plugin.ts:127 | the opening pipe starts a delimiter row of no columns |
| TableRules.AppendHeaderCell | src/contentScript/md-tables-plugin.ts:128-130 | each loop step adds one column to the synthesized delimiter row |
| TableRules.DelimiterRowShape | src/contentScript/md-tables-plugin.ts:127-130 | the synthesized delimiter row is one line with one delimiter per column plus one, and a delimiter row |
| TableRules.EmptyHeaderShape | src/contentScript/md-tables-plugin.ts:124-131 | the synthesized header is two lines with `columnCount + 1` delimiters each: blank cells, then a delimiter row |
| TableRules.CollapseAfterHeadingRow | src/contentScript/md-tables-plugin.ts:94-117 | collapsing line feeds keeps a heading row and its border row as they are |
| TableRules.LeadingLineFeed | src/contentScript/md-tables-plugin.ts:117 | a single leading line feed survives the collapse |
| TableRules.TrimAfterHeadingRow | src/contentScript/md-tables-plugin.ts:119 | trimming cuts only the outer white space around a heading row and its border |
| TableRules.SplitAfterHeadingRow | src/contentScript/md-tables-plugin.ts:119-121 | the second line after a split is the border row and what follows it on that line |
| TableRules.SecondLineAfterHeadingRow | src/contentScript/md-tables-plugin.ts:117-121 | when the content opens with a heading row, the second line starts with its border row |
| TableRules.DividerAfterRow | src/contentScript/md-tables-plugin.ts:117-122 | when the content opens with a heading row and its border row, the second line passes the delimiter-row test |
| TableRules.HeadingRowOutput | src/contentScript/md-tables-plugin.ts:80-94 | a heading row of a table with columns prints its content, a line feed, and a one-line delimiter row |
| TableRules.MarkdownTableWithHeader | src/contentScript/md-tables-plugin.ts:124-136 | when the second line is a delimiter row, no header is synthesized |
| TableRules.HeadingRowSuppressesEmptyHeader | src/contentScript/md-tables-plugin.ts:78-136 | content that opens with a heading row gets no synthesized header from the `table` rule |
| TableRules.NestedTableRuleOutput | src/contentScript/md-tables-plugin.ts:103-115 | a table holding a table prints as HTML or passes its content through, and as HTML when nested tables are preserved |
| TableRules.SingleCellTableRuleOutput | src/contentScript/md-tables-plugin.ts:103-115 | a single-row table with at most one cell prints as HTML or passes its content through |
| TableRules.HtmlTableShape | src/contentScript/md-tables-plugin.ts:106-113 | the HTML of a table outside any `div` is wrapped in a `div` block, and given as is inside one |
| TableRules.MarkdownTableShape | src/contentScript/md-tables-plugin.ts:124-136 | a table with columns and no delimiter row is printed as caption, synthesized header, collapsed content, between blank lines |
| TableRules.TrimStartOfPipe | src/contentScript/md-tables-plugin.ts:135 | `trimStart` leaves a text opening with the synthesized header unchanged |
| TableRules.ColumnAlignmentsStep | src/contentScript/md-tables-plugin.ts:128-130 | one more column adds its alignment |
| TableRules.BorderCellsStep | src/contentScript/md-tables-plugin.ts:88-92 | one more column adds the cell of its border for the row's child at that index |
| TableRules.DelimiterRowStep | src/contentScript/md-tables-plugin.ts:128-130 | one more column adds the delimiter cell of its border |
| TableRules.HeadingRowBorder | src/contentScript/md-tables-plugin.ts:84-93 | the loop builds the border cells for the columns' alignments |
| TableRules.BuildEmptyHeader | src/contentScript/md-tables-plugin.ts:125-131 | the loop builds the blank header line over the delimiter row for the columns' alignments |
| TableRules.RenderMarkdownTable | src/contentScript/md-tables-plugin.ts:115-136 | the pipe-table branch of the `table` rule prints the caption, the synthesized header when needed, and the collapsed content |
| TableRules.TablesPlugin.constructor | src/contentScript/md-tables-plugin.ts:282-285 | `tables()` stores `isCodeBlock` and the options; the skip cache starts empty |
| TableRules.TablesPlugin.KeepAgreesWithTableRule | src/contentScript/md-tables-plugin.ts:286-293 | the `keep` filter selects a table exactly when the `table` rule would print it as HTML |
| TableRules.TablesPlugin.Keep | src/contentScript/md-tables-plugin.ts:286-293 | the `keep` filter; `TableRules.TablesPlugin.KeepAgreesWithTableRule` states that it agrees with the `table` rule |
| TableRules.TablesPlugin.ShouldBeSkipped | src/contentScript/md-tables-plugin.ts:224-234 | `tableShouldBeSkipped` answers as `tableShouldBeSkipped_` (a missing table is skipped), caches the answer, and leaves a cached entry alone |
| TableRules.TablesPlugin.TableCellRule | src/contentScript/md-tables-plugin.ts:70-76 | the `tableCell` replacement passes content through in a skipped table, else prints the cell |
| TableRules.TablesPlugin.TableRowRule | src/contentScript/md-tables-plugin.ts:78-96 | the `tableRow` replacement passes content through in a skipped table, else prints the row and, under a heading row, its border row |
| TableRules.TablesPlugin.TableRule | src/contentScript/md-tables-plugin.ts:98-139 | the `table` replacement prints HTML, the content of a skipped table, or the pipe table, and caches only when it asks whether to skip |
| ColspanBorder.IntendedBorderCells | src/contentScript/md-tables-plugin.ts:86-93 | the border row evidently meant under a heading row: one delimiter cell per column |
| ColspanBorder.IntendedBorderShape | src/contentScript/md-tables-plugin.ts:86-93 | the intended border is one line that passes the delimiter-row test, with one delimiter per column plus one |
| ColspanBorder.IntendedHeadingBorder | src/contentScript/md-tables-plugin.ts:86-93 | for a table with columns, the intended border has `tableColCount + 1` delimiters |
| ColspanBorder.BorderCellsWithoutSpans | src/contentScript/md-tables-plugin.ts:86-93 | when no heading cell spans more than one column, the border the code prints is the intended one |
| ColspanBorder.SpanningCellBorder | src/contentScript/md-tables-plugin.ts:86-93 | as written: under a heading row whose only cell has `colspan` 2, two unaligned columns get the border `\| --- \|     \| --- \|`, four delimiters where the intended border has three |
| ColspanBorder.SpanningHeadingCell | src/contentScript/md-tables-plugin.ts:179-190 | that heading cell itself prints as two columns, with three delimiters |
| ColspanBorder.SpanningHeadingTable | src/contentScript/md-tables-plugin.ts:158-168 | the table `<table><tr><th colspan=2>A</th></tr><tr><td>1</td><td>2</td></tr></table>` parses to a tree of this shape, with both rows in an implied `tbody`: its first row is a heading row of that kind and its second row has two cells |
| ColspanBorder.SpanningRowOutput | src/contentScript/md-tables-plugin.ts:78-96 | as written: in a table that is not skipped, with two unaligned columns, the `tableRow` rule prints a heading row whose only cell has `colspan` 2 as a line feed, the row's content, a line feed and the border `\| --- \|     \| --- \|` |
| ColspanBorder.SpanningHeadingWF | src/contentScript/md-tables-plugin.ts:158-168 | the tree of that table is well formed: every child links back to its parent and comes after it |
| ColspanBorder.SpanningHeadingNotSkipped | src/contentScript/md-tables-plugin.ts:158-168 | its first row belongs to its table, which has two rows, holds no nested table and so is not skipped |
| ColspanBorder.UnalignedCells | src/contentScript/md-tables-plugin.ts:45-68 | in a tree with no `align` attribute and no `text-align` style, every vote is "" and every column's alignment is "" |
| ColspanBorder.SpanningHeadingAligns | src/contentScript/md-tables-plugin.ts:45-68 | that table has two columns by `tableColCount`, and neither is aligned |
| ColspanBorder.SpanningHeadingRowOutput | src/contentScript/md-tables-plugin.ts:78-96 | end to end, on that table: the `tableRow` rule prints its heading row, for any content, followed by `\n\| --- \|     \| --- \|` |

## Left out

- The DOM is a fixed arena of nodes. `textContent`, `outerHTML` and the computed
  `style.textAlign` are given strings, and `colspan` is given already parsed by
  `parseInt`, as a number or `NaN`.
- The Turndown engine is not part of this model. That covers choosing among the
  rules, producing each node's `content` from its children, escaping Markdown, and
  `addRule`/`keep` themselves. `content` is an input of every rule.
- `isCodeBlock` and `preserveNestedTables` are fixed at construction. `isCodeBlock` is
  a function parameter. A rule run before `tables()` has stored them is not modelled.
- `tableShouldBeSkippedCache_` is a `WeakMap` shared by all documents. Here it is a map
  inside one plugin object for one unchanging document. Garbage collection, and a
  document changed after an answer was cached, are not modelled.
- JsText.AsciiLower, Alignment.GetAlignment: `toLowerCase` is modelled on ASCII
  letters only. A few other characters do lower to ASCII letters (`İ`, U+0130,
  lowers to `i` followed by U+0307, and the Kelvin sign U+212A to `k`), but none of
  them lowers into a whole key, so a value containing one is not a key either way
  and the vote's outcome is the same.
- JsText.ReplaceAll: its own contract gives properties only. JsText.ReplaceAllSkip and
  JsText.ReplaceAllOccurrence state what it returns, one character or one occurrence at
  a time; JsText.ReplaceAllChar and JsText.ReplaceAllPrefixFree state it in larger steps.
- JsText.CollapseNewlines: its own contract gives properties only.
  JsText.CollapseNewlinesSquashes states what it returns.
- JsText.EscapePipeRuns: its own contract gives properties only.
  JsText.EscapePipeRunsSquashes states what it returns.
- JsText.Repeat: its own contract gives the length only. JsText.RepeatCopies states
  the copies.
- Dom.PreviousSibling: its own contract gives one direction only.
  Dom.PreviousSiblingSpec states both directions and which sibling it is.
- Cells.NewlinesToBr: its own contract gives properties only.
  Cells.NewlinesToBrOnePass states what it returns.
- Alignment.GetBorder: requires one of the four keys. For any other string the source
  would look up `undefined`, but `getColumnAlignment` never returns one.
- TableStructure.IsHeadingRow: requires the row to have a parent, because the source
  reads the parent's `nodeName` without checking it.
- TableRules.TablesPlugin.TableRule: requires a `TABLE` node, which is what the rule's
  filter guarantees.
- TableRules.HeadingRowSuppressesEmptyHeader: is stated for a heading row whose own
  content has no line feed and is not all white space, and a table with at least one
  column. It says nothing about the other cases.
- TableRules.MarkdownTableShape: gives the output only when a header is synthesized.
  TableRules.MarkdownTableWithHeader covers the case of an existing delimiter row.

## Findings

| source | as written | input that shows it | evidently intended | confidence | as-written member | corrected member |
|---|---|---|---|---|---|---|
| src/contentScript/md-tables-plugin.ts:86-93 | each border cell is printed with `cell(border, childNode, i)`, which also appends `handleColSpan`'s empty cells for the heading cell's `colspan`, while the loop still prints one border per column | `<table><tr><th colspan=2>A</th></tr><tr><td>1</td><td>2</td></tr></table>`: the heading row is `\| A   \|     \|`, the border row `\| --- \|     \| --- \|`, three cells with a blank one, so GFM does not read a table | one delimiter cell per column, `tableColCount + 1` delimiters | medium, not executed | ColspanBorder.SpanningCellBorder | ColspanBorder.IntendedHeadingBorder |

The rules in `TableRules` keep the code's behaviour. `ColspanBorder.BorderCellsWithoutSpans`
proves that the two borders agree whenever no heading cell spans more than one column.
`ColspanBorder.SpanningHeadingRowOutput` follows the example table through the `tableRow` rule
to the border it prints.
