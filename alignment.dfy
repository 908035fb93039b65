/** Column alignment: the alignment a cell declares, the running vote that
    `getColumnAlignment` holds over a column, and the GFM delimiter cell that
    `getBorder` writes for the winner. */
module Alignment {
  import opened JsText
  import opened Dom

  /** The keys of the vote record: the only alignments that can win. */
  predicate IsAlignKey(a: string) {
    a == "left" || a == "right" || a == "center" || a == ""
  }

  /** `getAlignment`: the `align` attribute, or else `style.textAlign`, lower-cased;
      "" for a missing node. */
  function GetAlignment(doc: Tree, n: Option<NodeId>): (r: string)
    ensures n.None? ==> r == ""
    ensures forall i | 0 <= i < |r| :: !('A' <= r[i] <= 'Z')
    ensures n.Some? ==>
      var node := NodeAt(doc, n.value);
      var attr := if node.align != "" then node.align else node.textAlign;
      && |r| == |attr|
      && forall i | 0 <= i < |r| :: r[i] == if 'A' <= attr[i] <= 'Z' then (attr[i] - 'A' + 'a') as char else attr[i]
  {
    match n
    case None => ""
    case Some(id) =>
      var node := NodeAt(doc, id);
      AsciiLower(if node.align != "" then node.align else node.textAlign)
  }

  /** The number of votes `k` has received in `aligns`. */
  function Votes(aligns: seq<string>, k: string): (v: nat)
    ensures v <= |aligns|
  {
    if aligns == [] then 0
    else Votes(aligns[..|aligns| - 1], k) + (if aligns[|aligns| - 1] == k then 1 else 0)
  }

  lemma VotesSnoc(aligns: seq<string>, a: string, k: string)
    ensures Votes(aligns + [a], k) == Votes(aligns, k) + (if a == k then 1 else 0)
  {
    assert (aligns + [a])[..|aligns|] == aligns;
  }

  lemma {:induction false} VotesPrefix(aligns: seq<string>, j: nat, k: string)
    requires j <= |aligns|
    ensures Votes(aligns[..j], k) <= Votes(aligns, k)
    decreases |aligns|
  {
    if j < |aligns| {
      var init := aligns[..|aligns| - 1];
      VotesPrefix(init, j, k);
      assert init[..j] == aligns[..j];
    } else {
      assert aligns[..j] == aligns;
    }
  }

  /** What `getColumnAlignment` promises of its result `r` for the alignments `aligns`
      of a column's cells, in row order: `r` is a key with the most votes; "" when no
      key received a vote; and among keys with that many votes, `r` got there first
      (whenever another key has reached the final count, `r` already had it). */
  ghost predicate IsColumnWinner(aligns: seq<string>, r: string) {
    && IsAlignKey(r)
    && (forall k | IsAlignKey(k) :: Votes(aligns, k) <= Votes(aligns, r))
    && (Votes(aligns, r) == 0 ==> r == "")
    && (forall k, j | IsAlignKey(k) && 0 <= j <= |aligns| && Votes(aligns[..j], k) == Votes(aligns, r) ::
          Votes(aligns[..j], r) == Votes(aligns, r))
  }

  /** One more cell keeps the running winner a winner. */
  lemma WinnerStep(aligns: seq<string>, a: string, prev: string)
    requires IsColumnWinner(aligns, prev)
    ensures var s := aligns + [a];
      IsColumnWinner(s, if IsAlignKey(a) && Votes(s, a) > Votes(s, prev) then a else prev)
  {
    var s := aligns + [a];
    var next := if IsAlignKey(a) && Votes(s, a) > Votes(s, prev) then a else prev;
    var m := Votes(aligns, prev);
    VotesSnoc(aligns, a, prev);
    VotesSnoc(aligns, a, next);
    var m' := Votes(s, next);
    assert m' == m || (m' == m + 1 && (a == next));
    forall k | IsAlignKey(k) ensures Votes(s, k) <= m' {
      VotesSnoc(aligns, a, k);
    }
    forall k, j | IsAlignKey(k) && 0 <= j <= |s| && Votes(s[..j], k) == m'
      ensures Votes(s[..j], next) == m'
    {
      if j == |s| {
        assert s[..j] == s;
      } else {
        assert s[..j] == aligns[..j];
        VotesPrefix(aligns, j, k);
      }
    }
  }

  /** The running vote of `getColumnAlignment`, one cell at a time: a cell's key takes
      the lead when its count overtakes the leader's; values that are not keys never do. */
  function ColumnWinner(aligns: seq<string>): (r: string)
    ensures IsAlignKey(r)
  {
    if aligns == [] then ""
    else
      var s := aligns;
      var prev := ColumnWinner(aligns[..|aligns| - 1]);
      var a := aligns[|aligns| - 1];
      if IsAlignKey(a) && Votes(s, a) > Votes(s, prev) then a else prev
  }

  /** The running vote elects the winner `getColumnAlignment` promises. */
  lemma {:induction false} ColumnWinnerCorrect(aligns: seq<string>)
    ensures IsColumnWinner(aligns, ColumnWinner(aligns))
    decreases |aligns|
  {
    if aligns == [] {
      assert forall k, j | 0 <= j <= 0 :: Votes(aligns[..j], k) == 0;
    } else {
      var init := aligns[..|aligns| - 1];
      var a := aligns[|aligns| - 1];
      ColumnWinnerCorrect(init);
      assert aligns == init + [a];
      WinnerStep(init, a, ColumnWinner(init));
    }
  }

  /** Two distinct keys that both reach `m` votes did not reach it at the same cell. */
  lemma {:induction false} ReachedApart(aligns: seq<string>, k1: string, k2: string, m: nat, j: nat)
    requires k1 != k2 && m > 0 && j <= |aligns|
    requires Votes(aligns[..j], k1) >= m && Votes(aligns[..j], k2) >= m
    ensures exists i | 0 <= i < j :: (Votes(aligns[..i], k1) >= m) != (Votes(aligns[..i], k2) >= m)
    decreases j
  {
    assert j > 0;
    var s := aligns[..j];
    assert s == aligns[..j - 1] + [aligns[j - 1]];
    VotesSnoc(aligns[..j - 1], aligns[j - 1], k1);
    VotesSnoc(aligns[..j - 1], aligns[j - 1], k2);
    if Votes(aligns[..j - 1], k1) >= m && Votes(aligns[..j - 1], k2) >= m {
      ReachedApart(aligns, k1, k2, m, j - 1);
    }
  }

  /** The winner of a column is determined by `IsColumnWinner`. */
  lemma ColumnWinnerUnique(aligns: seq<string>, r1: string, r2: string)
    requires IsColumnWinner(aligns, r1) && IsColumnWinner(aligns, r2)
    ensures r1 == r2
  {
    var m := Votes(aligns, r1);
    assert Votes(aligns, r2) == m;
    if r1 != r2 {
      assert m > 0;
      assert aligns[..|aligns|] == aligns;
      ReachedApart(aligns, r1, r2, m, |aligns|);
      var i :| 0 <= i < |aligns| && (Votes(aligns[..i], r1) >= m) != (Votes(aligns[..i], r2) >= m);
      VotesPrefix(aligns, i, r1);
      VotesPrefix(aligns, i, r2);
    }
  }

  /** The alignments of the cells at index `col` of `row.childNodes`, over the rows that
      have a child there, in row order. Whitespace text nodes are children too. */
  function ColumnCellAlignments(doc: Tree, rows: seq<NodeId>, col: nat): seq<string> {
    if rows == [] then []
    else
      var row := rows[|rows| - 1];
      ColumnCellAlignments(doc, rows[..|rows| - 1], col)
      + (if col < |Kids(doc, row)| then [GetAlignment(doc, Some(Kids(doc, row)[col]))] else [])
  }

  /** The alignment `getColumnAlignment` computes for column `col` of table `t`. */
  function ColumnAlignment(doc: Tree, t: NodeId, col: nat): (r: string)
    ensures IsAlignKey(r)
  {
    ColumnWinner(ColumnCellAlignments(doc, Rows(doc, t), col))
  }

  /** The column's alignment is the key with the most votes, the first to reach that
      count on a tie, and "" when no key has a vote. */
  lemma ColumnAlignmentIsWinner(doc: Tree, t: NodeId, col: nat)
    ensures IsColumnWinner(ColumnCellAlignments(doc, Rows(doc, t), col), ColumnAlignment(doc, t, col))
  {
    ColumnWinnerCorrect(ColumnCellAlignments(doc, Rows(doc, t), col));
  }

  lemma {:induction false} NoCellsNoAlignments(doc: Tree, rows: seq<NodeId>, col: nat)
    requires forall i | 0 <= i < |rows| :: |Kids(doc, rows[i])| <= col
    ensures ColumnCellAlignments(doc, rows, col) == []
  {
    if rows != [] {
      NoCellsNoAlignments(doc, rows[..|rows| - 1], col);
    }
  }

  /** A column that no row reaches is unaligned. */
  lemma NoCellsUnaligned(doc: Tree, t: NodeId, col: nat)
    requires forall i | 0 <= i < |Rows(doc, t)| :: |Kids(doc, Rows(doc, t)[i])| <= col
    ensures ColumnAlignment(doc, t, col) == ""
  {
    NoCellsNoAlignments(doc, Rows(doc, t), col);
  }

  lemma CellsStep(doc: Tree, rows: seq<NodeId>, i: nat, col: nat)
    requires i < |rows|
    ensures ColumnCellAlignments(doc, rows[..i + 1], col) ==
      ColumnCellAlignments(doc, rows[..i], col)
      + (if col < |Kids(doc, rows[i])| then [GetAlignment(doc, Some(Kids(doc, rows[i])[col]))] else [])
  {
    assert rows[..i + 1][..i] == rows[..i];
  }

  lemma WinnerSnoc(aligns: seq<string>, a: string)
    ensures var s := aligns + [a]; var prev := ColumnWinner(aligns);
      ColumnWinner(s) == if IsAlignKey(a) && Votes(s, a) > Votes(s, prev) then a else prev
  {
    assert (aligns + [a])[..|aligns|] == aligns;
  }

  /** The vote record `votes` and the leader `align` after the cells `seen`. */
  ghost predicate Tallied(votes: map<string, nat>, align: string, seen: seq<string>) {
    && (forall k :: k in votes <==> IsAlignKey(k))
    && (forall k | k in votes :: votes[k] == Votes(seen, k))
    && align == ColumnWinner(seen)
  }

  /** One cell's vote in `getColumnAlignment`. */
  method CastVote(votes: map<string, nat>, align: string, ghost seen: seq<string>, c: string)
    returns (votes': map<string, nat>, align': string)
    requires Tallied(votes, align, seen)
    ensures Tallied(votes', align', seen + [c])
  {
    WinnerSnoc(seen, c);
    forall k ensures Votes(seen + [c], k) == Votes(seen, k) + (if c == k then 1 else 0) {
      VotesSnoc(seen, c, k);
    }
    votes', align' := votes, align;
    // Any other value counts as NaN in the source and never compares greater.
    if c in votes {
      votes' := votes[c := votes[c] + 1];
      if votes'[c] > votes'[align] {
        align' := c;
      }
    }
  }

  /** `getColumnAlignment`: the vote over column `col` of the rows of table `t`. */
  method GetColumnAlignment(doc: Tree, t: NodeId, col: nat) returns (align: string)
    ensures align == ColumnAlignment(doc, t, col)
  {
    align := TallyColumn(doc, Rows(doc, t), col);
  }

  /** The loop of `getColumnAlignment`: tallies the votes of the cells at `col` row by row. */
  method TallyColumn(doc: Tree, rows: seq<NodeId>, col: nat) returns (align: string)
    ensures align == ColumnWinner(ColumnCellAlignments(doc, rows, col))
  {
    var votes: map<string, nat> := map["left" := 0, "right" := 0, "center" := 0, "" := 0];
    align := "";
    ghost var seen: seq<string> := [];
    var i := 0;
    while i < |rows|
      invariant 0 <= i <= |rows|
      invariant seen == ColumnCellAlignments(doc, rows[..i], col)
      invariant Tallied(votes, align, seen)
    {
      var row := rows[i];
      CellsStep(doc, rows, i, col);
      if col < |Kids(doc, row)| {
        var cellAlignment := GetAlignment(doc, Some(Kids(doc, row)[col]));
        votes, align := CastVote(votes, align, seen, cellAlignment);
        seen := seen + [cellAlignment];
      }
      i := i + 1;
    }
    assert rows[..i] == rows;
  }

  /** `getBorder`: the GFM delimiter cell for an alignment; a colon on the left means
      left-aligned, on the right right-aligned, on both sides centred. */
  function GetBorder(a: string): (b: string)
    requires IsAlignKey(a)
    ensures |b| >= 3 && forall i | 0 < i < |b| - 1 :: b[i] == '-'
    ensures b[0] == ':' <==> a == "left" || a == "center"
    ensures b[|b| - 1] == ':' <==> a == "right" || a == "center"
    ensures forall i | 0 <= i < |b| :: b[i] == '-' || b[i] == ':'
    ensures b[0] == '-' ==> b[..3] == "---"
    ensures b[0] == ':' ==> |b| >= 4 && b[..4] == ":---"
  {
    if a != "" then (if a == "left" then ":---" else if a == "right" then "---:" else ":---:")
    else "---"
  }

  /** The alignment a GFM reader takes from a delimiter cell. */
  function DelimiterAlignment(b: string): string
    requires |b| >= 1
  {
    var l, r := b[0] == ':', b[|b| - 1] == ':';
    if l && r then "center" else if l then "left" else if r then "right" else ""
  }

  /** A GFM reader recovers the voted alignment from the delimiter cell: reading the
      colons back is a left inverse of `getBorder` on the four keys. */
  lemma BorderRoundTrip(a: string)
    requires IsAlignKey(a)
    ensures DelimiterAlignment(GetBorder(a)) == a
  {
  }
}
