/** The JavaScript string operations that the table plugin relies on, written out on
    `string` (= `seq<char>`): trimming, global replacement, splitting into lines and
    the regular-expression tests the plugin performs. */
module JsText {

  /** The characters that `\s` matches in a JavaScript regular expression; `trim`,
      `trimStart` and `trimEnd` remove exactly the same set (white space and line
      terminators). */
  predicate IsSpace(c: char) {
    || c == ' ' || c == '\t' || c == '\n' || c == '\U{B}' || c == '\U{C}' || c == '\r'
    || c == '\U{A0}' || c == '\U{1680}' || ('\U{2000}' <= c <= '\U{200A}')
    || c == '\U{2028}' || c == '\U{2029}' || c == '\U{202F}' || c == '\U{205F}'
    || c == '\U{3000}' || c == '\U{FEFF}'
  }

  predicate AllSpace(s: string) {
    forall i | 0 <= i < |s| :: IsSpace(s[i])
  }

  /** `s.trimStart()`: the suffix of `s` left after its leading white space. */
  function TrimStart(s: string): (r: string)
    ensures |r| <= |s| && r == s[|s| - |r|..]
    ensures AllSpace(s[..|s| - |r|])
    ensures r == [] || !IsSpace(r[0])
  {
    if s != [] && IsSpace(s[0]) then
      var r := TrimStart(s[1..]);
      assert s[..|s| - |r|] == [s[0]] + s[1..][..|s| - 1 - |r|];
      r
    else
      s
  }

  /** `s.trimEnd()`: the prefix of `s` left after its trailing white space. */
  function TrimEnd(s: string): (r: string)
    ensures |r| <= |s| && r == s[..|r|]
    ensures AllSpace(s[|r|..])
    ensures r == [] || !IsSpace(r[|r| - 1])
  {
    if s != [] && IsSpace(s[|s| - 1]) then
      var r := TrimEnd(s[..|s| - 1]);
      assert s[|r|..] == s[..|s| - 1][|r|..] + [s[|s| - 1]];
      r
    else
      s
  }

  /** `r` is `s` with a white-space prefix and a white-space suffix cut away. */
  ghost predicate IsTrimmingOf(s: string, r: string) {
    exists i, j | 0 <= i <= j <= |s| :: r == s[i..j] && AllSpace(s[..i]) && AllSpace(s[j..])
  }

  /** `s.trim()`: `s` without leading and trailing white space. */
  function Trim(s: string): (r: string)
    ensures IsTrimmingOf(s, r)
    ensures r == [] || (!IsSpace(r[0]) && !IsSpace(r[|r| - 1]))
  {
    TrimFrames(s);
    TrimEnd(TrimStart(s))
  }

  lemma TrimFrames(s: string)
    ensures IsTrimmingOf(s, TrimEnd(TrimStart(s)))
  {
    var t := TrimStart(s);
    var r := TrimEnd(t);
    var i := |s| - |t|;
    assert t == s[i..];
    assert r == s[i..i + |r|];
    assert s[i + |r|..] == t[|r|..];
  }

  /** `p` occurs in `s` as a contiguous piece. */
  predicate HasSubstring(s: string, p: string)
    decreases |s|
  {
    |p| <= |s| && (s[..|p|] == p || HasSubstring(s[1..], p))
  }

  /** An occurrence of `p` in `s` puts the first character of `p` in `s`. */
  lemma {:induction false} HasSubstringHead(s: string, p: string)
    requires p != [] && HasSubstring(s, p)
    ensures p[0] in s
    decreases |s|
  {
    if s[..|p|] != p {
      HasSubstringHead(s[1..], p);
    } else {
      assert s[0] == p[0];
    }
  }

  lemma {:induction false} HasSubstringExtends(a: string, b: string, p: string)
    requires HasSubstring(a, p)
    ensures HasSubstring(a + b, p)
    decreases |a|
  {
    assert (a + b)[..|p|] == a[..|p|];
    if a[..|p|] != p {
      HasSubstringExtends(a[1..], b, p);
      assert (a + b)[1..] == a[1..] + b;
    }
  }

  /** `s.replace(pat, rep)` for a regular expression that matches the literal `pat`
      with the global flag: every leftmost, non-overlapping occurrence is replaced. */
  function ReplaceAll(s: string, pat: string, rep: string): (r: string)
    requires pat != []
    ensures !HasSubstring(s, pat) ==> r == s
    ensures forall c | c !in s && c !in rep :: c !in r
    ensures |pat| == 1 && pat[0] !in rep ==> pat[0] !in r
    decreases |s|
  {
    if |s| < |pat| then s
    else if s[..|pat|] == pat then rep + ReplaceAll(s[|pat|..], pat, rep)
    else [s[0]] + ReplaceAll(s[1..], pat, rep)
  }

  /** `s` with its leading run of `c` removed. */
  function DropRun(s: string, c: char): (r: string)
    ensures |r| <= |s|
    ensures s != [] && s[0] == c ==> |r| < |s|
  {
    if s != [] && s[0] == c then DropRun(s[1..], c) else s
  }

  /** What `DropRun` leaves is a suffix that does not start with `c`, and all it cut
      off is `c`. */
  lemma {:induction false} DropRunProps(s: string, c: char)
    ensures var r := DropRun(s, c);
      && r == s[|s| - |r|..]
      && (r == [] || r[0] != c)
      && (forall i | 0 <= i < |s| - |r| :: s[i] == c)
    decreases |s|
  {
    if s != [] && s[0] == c {
      DropRunProps(s[1..], c);
    }
  }

  /** `s.replace(/c+/g, rep)`: every maximal run of `c` becomes one copy of `rep`. */
  function ReplaceRuns(s: string, c: char, rep: string): string
    decreases |s|
  {
    if s == [] then []
    else if s[0] == c then rep + ReplaceRuns(DropRun(s, c), c, rep)
    else [s[0]] + ReplaceRuns(s[1..], c, rep)
  }

  /** `s` with every `c` deleted. */
  function Without(s: string, c: char): (r: string)
    ensures c !in r
  {
    if s == [] then [] else (if s[0] == c then [] else [s[0]]) + Without(s[1..], c)
  }

  lemma {:induction false} WithoutAppend(a: string, b: string, c: char)
    ensures Without(a + b, c) == Without(a, c) + Without(b, c)
    decreases |a|
  {
    if a == [] {
      assert a + b == b;
    } else {
      assert (a + b)[0] == a[0] && (a + b)[1..] == a[1..] + b;
      WithoutAppend(a[1..], b, c);
    }
  }

  lemma {:induction false} WithoutDropRun(s: string, c: char)
    ensures Without(DropRun(s, c), c) == Without(s, c)
    decreases |s|
  {
    if s != [] && s[0] == c {
      WithoutDropRun(s[1..], c);
    }
  }

  lemma {:induction false} ReplaceRunsStart(s: string, c: char, rep: string)
    requires rep == [] || rep[0] != c
    ensures var r := ReplaceRuns(s, c, rep); r == [] || r[0] != c
  {
    if s != [] && s[0] != c {
      assert ReplaceRuns(s, c, rep)[0] == s[0];
    } else if s != [] {
      DropRunProps(s, c);
      var d := DropRun(s, c);
      if rep == [] && d != [] {
        assert ReplaceRuns(d, c, rep)[0] == d[0];
      }
    }
  }

  /** Replacing runs of a character that does not occur changes nothing. */
  lemma {:induction false} ReplaceRunsAbsent(s: string, c: char, rep: string)
    requires c !in s
    ensures ReplaceRuns(s, c, rep) == s
    decreases |s|
  {
    if s != [] {
      assert c !in s[1..];
      ReplaceRunsAbsent(s[1..], c, rep);
      assert s == [s[0]] + s[1..];
    }
  }

  /** A piece without the character is copied as it is in front of the rest. */
  lemma {:induction false} ReplaceRunsPrefixFree(p: string, y: string, c: char, rep: string)
    requires c !in p
    ensures ReplaceRuns(p + y, c, rep) == p + ReplaceRuns(y, c, rep)
    decreases |p|
  {
    if p == [] {
      assert p + y == y;
    } else {
      var t := p[1..];
      assert c !in t;
      ReplaceRunsPrefixFree(t, y, c, rep);
      assert (p + y)[0] == p[0];
      assert (p + y)[1..] == t + y;
      assert p + ReplaceRuns(y, c, rep) == [p[0]] + (t + ReplaceRuns(y, c, rep));
    }
  }

  /** Leading white space in front of `y` is trimmed away with the rest of it. */
  lemma {:induction false} TrimStartAfterSpace(x: string, y: string)
    requires AllSpace(x)
    ensures TrimStart(x + y) == TrimStart(y)
    decreases |x|
  {
    if x == [] {
      assert x + y == y;
    } else {
      assert (x + y)[0] == x[0] && (x + y)[1..] == x[1..] + y;
      TrimStartAfterSpace(x[1..], y);
    }
  }

  /** A piece that is not all white space stops `trimStart` before `y`. */
  lemma {:induction false} TrimStartBefore(x: string, y: string)
    requires !AllSpace(x)
    ensures TrimStart(x + y) == TrimStart(x) + y
    decreases |x|
  {
    assert (x + y)[0] == x[0];
    if IsSpace(x[0]) {
      assert (x + y)[1..] == x[1..] + y;
      TrimStartBefore(x[1..], y);
    }
  }

  /** A piece that ends in a non-space character stops `trimEnd` after `x`. */
  lemma {:induction false} TrimEndAfter(x: string, y: string)
    requires x != [] && !IsSpace(x[|x| - 1])
    ensures TrimEnd(x + y) == x + TrimEnd(y)
    decreases |y|
  {
    if y == [] {
      assert x + y == x;
    } else {
      assert (x + y)[|x + y| - 1] == y[|y| - 1];
      if IsSpace(y[|y| - 1]) {
        assert (x + y)[..|x + y| - 1] == x + y[..|y| - 1];
        TrimEndAfter(x, y[..|y| - 1]);
      }
    }
  }

  /** `s.replace(/\n+/g, '\n')`: runs of line feeds shrink to one. */
  function CollapseNewlines(s: string): (r: string)
    ensures forall i | 0 <= i < |r| - 1 :: !(r[i] == '\n' && r[i + 1] == '\n')
    ensures Without(r, '\n') == Without(s, '\n')
  {
    CollapseNewlinesProps(s);
    ReplaceRuns(s, '\n', "\n")
  }

  lemma {:induction false} CollapseNewlinesProps(s: string)
    ensures var r := ReplaceRuns(s, '\n', "\n");
      && (forall i | 0 <= i < |r| - 1 :: !(r[i] == '\n' && r[i + 1] == '\n'))
      && Without(r, '\n') == Without(s, '\n')
    decreases |s|
  {
    var r := ReplaceRuns(s, '\n', "\n");
    if s == [] {
    } else if s[0] == '\n' {
      var t := DropRun(s, '\n');
      DropRunProps(s, '\n');
      CollapseNewlinesProps(t);
      var rt := ReplaceRuns(t, '\n', "\n");
      assert r == "\n" + rt;
      assert rt == [] || rt[0] == t[0];
      WithoutAppend("\n", rt, '\n');
      WithoutDropRun(s, '\n');
    } else {
      CollapseNewlinesProps(s[1..]);
      var rt := ReplaceRuns(s[1..], '\n', "\n");
      assert r == [s[0]] + rt;
      WithoutAppend([s[0]], rt, '\n');
    }
  }

  /** `s.replace(/\|+/g, '\\|')`: every run of pipes becomes one escaped pipe, so that
      no `|` of the result can be read as a cell delimiter. */
  function EscapePipeRuns(s: string): (r: string)
    ensures forall i | 0 <= i < |r| && r[i] == '|' :: 0 < i && r[i - 1] == '\\'
    ensures '|' !in s ==> r == s
    ensures '\n' !in s ==> '\n' !in r
  {
    var r := ReplaceRuns(s, '|', "\\|");
    EscapePipeRunsFacts(s, r);
    r
  }

  lemma EscapePipeRunsFacts(s: string, r: string)
    requires r == ReplaceRuns(s, '|', "\\|")
    ensures forall i | 0 <= i < |r| && r[i] == '|' :: 0 < i && r[i - 1] == '\\'
    ensures '|' !in s ==> r == s
    ensures '\n' !in s ==> '\n' !in r
  {
    EscapePipeRunsProps(s, r);
    if '|' !in s {
      ReplaceRunsAbsent(s, '|', "\\|");
    }
    if '\n' !in s {
      ReplaceRunsKeepsAbsent(s, '|', "\\|", '\n');
    }
  }

  /** Every pipe left by the escaping follows a backslash. */
  lemma {:induction false} EscapePipeRunsProps(s: string, r: string)
    requires r == ReplaceRuns(s, '|', "\\|")
    ensures forall i | 0 <= i < |r| && r[i] == '|' :: 0 < i && r[i - 1] == '\\'
    decreases |s|
  {
    if s == [] {
    } else if s[0] == '|' {
      var t := DropRun(s, '|');
      var rt := ReplaceRuns(t, '|', "\\|");
      EscapePipeRunsProps(t, rt);
      ReplaceRunsStart(t, '|', "\\|");
      assert r == "\\|" + rt;
      forall i | 0 <= i < |r| && r[i] == '|' ensures 0 < i && r[i - 1] == '\\' {
        if i >= 2 {
          assert r[i] == rt[i - 2];
          if i > 2 { assert r[i - 1] == rt[i - 3]; }
        }
      }
    } else {
      var rt := ReplaceRuns(s[1..], '|', "\\|");
      EscapePipeRunsProps(s[1..], rt);
      ReplaceRunsStart(s[1..], '|', "\\|");
      assert r == [s[0]] + rt;
      forall i | 0 <= i < |r| && r[i] == '|' ensures 0 < i && r[i - 1] == '\\' {
        assert r[i] == rt[i - 1];
        if i > 1 { assert r[i - 1] == rt[i - 2]; }
      }
    }
  }

  /** Replacing runs brings in no character that is neither in `s` nor in `rep`. */
  lemma {:induction false} ReplaceRunsKeepsAbsent(s: string, c: char, rep: string, d: char)
    requires d !in s && d !in rep
    ensures d !in ReplaceRuns(s, c, rep)
    decreases |s|
  {
    if s != [] {
      if s[0] == c {
        var t := DropRun(s, c);
        DropRunProps(s, c);
        assert forall i | 0 <= i < |t| :: t[i] == s[|s| - |t| + i];
        ReplaceRunsKeepsAbsent(t, c, rep, d);
      } else {
        assert d !in s[1..];
        ReplaceRunsKeepsAbsent(s[1..], c, rep, d);
      }
    }
  }

  /** `s.split(sep)` for a one-character separator: the pieces between separators,
      at least one (an empty string splits into one empty piece). */
  function Split(s: string, sep: char): (lines: seq<string>)
    ensures |lines| >= 1
    ensures forall i | 0 <= i < |lines| :: sep !in lines[i]
  {
    if s == [] then [[]]
    else
      var rest := Split(s[1..], sep);
      if s[0] == sep then [[]] + rest else [[s[0]] + rest[0]] + rest[1..]
  }

  /** `lines.join(sep)`. */
  function Join(lines: seq<string>, sep: char): string
    requires |lines| >= 1
  {
    if |lines| == 1 then lines[0] else lines[0] + [sep] + Join(lines[1..], sep)
  }

  /** Joining the pieces of a split gives the string back. */
  lemma {:induction false} JoinSplit(s: string, sep: char)
    ensures Join(Split(s, sep), sep) == s
    decreases |s|
  {
    if s != [] {
      JoinSplit(s[1..], sep);
      var rest := Split(s[1..], sep);
      if s[0] != sep && |rest| > 1 {
        assert Join(rest, sep) == rest[0] + [sep] + Join(rest[1..], sep);
        var lines := Split(s, sep);
        assert lines[1..] == rest[1..];
      }
    }
  }

  /** A piece without separators in front of `x` becomes the start of the first line. */
  lemma {:induction false} SplitPrepend(a: string, x: string, sep: char)
    requires sep !in a
    ensures Split(a + x, sep) == [a + Split(x, sep)[0]] + Split(x, sep)[1..]
    decreases |a|
  {
    var lx := Split(x, sep);
    if a == [] {
      assert a + x == x && a + lx[0] == lx[0];
      assert [lx[0]] + lx[1..] == lx;
    } else {
      assert (a + x)[0] == a[0] && (a + x)[1..] == a[1..] + x;
      SplitPrepend(a[1..], x, sep);
      assert a + lx[0] == [a[0]] + (a[1..] + lx[0]);
    }
  }

  /** Splitting the join of separator-free lines gives the lines back. */
  lemma {:induction false} SplitJoin(lines: seq<string>, sep: char)
    requires |lines| >= 1
    requires forall i | 0 <= i < |lines| :: sep !in lines[i]
    ensures Split(Join(lines, sep), sep) == lines
    decreases |lines|
  {
    if |lines| == 1 {
      SplitPrepend(lines[0], [], sep);
      assert lines[0] + [] == lines[0];
    } else {
      SplitJoin(lines[1..], sep);
      var rest := Join(lines[1..], sep);
      assert lines[0] + [sep] + rest == lines[0] + ([sep] + rest);
      SplitPrepend(lines[0], [sep] + rest, sep);
      assert ([sep] + rest)[0] == sep && ([sep] + rest)[1..] == rest;
      assert Split([sep] + rest, sep) == [[]] + lines[1..];
      assert lines[0] + [] == lines[0];
      assert lines == [lines[0]] + lines[1..];
    }
  }

  /** `s.repeat(n)`. */
  function Repeat(s: string, n: nat): (r: string)
    ensures |r| == n * |s|
  {
    if n == 0 then [] else Repeat(s, n - 1) + s
  }

  /** The UTF-16 code units of a character: two for one outside the Basic Multilingual
      Plane (a surrogate pair), else one. */
  function CodeUnits(c: char): nat {
    if c as int >= 0x1_0000 then 2 else 1
  }

  /** The positions of the characters outside the Basic Multilingual Plane. */
  ghost function Astral(s: string): set<int> {
    set i | 0 <= i < |s| && s[i] as int >= 0x1_0000
  }

  /** `s.length`, which counts UTF-16 code units, not characters. */
  function Utf16Length(s: string): (n: nat)
    ensures n >= |s|
    ensures n == 0 <==> s == []
    ensures n == |s| + |Astral(s)|
  {
    if s == [] then 0
    else
      var p := s[..|s| - 1];
      assert Astral(s) == Astral(p) + (if s[|p|] as int >= 0x1_0000 then {|p|} else {});
      Utf16Length(p) + CodeUnits(s[|s| - 1])
  }

  /** One more character adds its code units. */
  lemma Utf16LengthSnoc(s: string, c: char)
    ensures Utf16Length(s + [c]) == Utf16Length(s) + CodeUnits(c)
  {
    assert (s + [c])[..|s|] == s;
  }

  /** `s.toLowerCase()` on ASCII letters. */
  function AsciiLower(s: string): (r: string)
    ensures |r| == |s|
    ensures forall i | 0 <= i < |r| :: !('A' <= r[i] <= 'Z')
    ensures forall i | 0 <= i < |r| :: ('a' <= s[i] <= 'z' || !('A' <= s[i] <= 'Z')) ==> r[i] == s[i]
    ensures forall i | 0 <= i < |r| :: 'A' <= s[i] <= 'Z' ==> r[i] == (s[i] - 'A' + 'a') as char
  {
    if s == [] then []
    else
      var c := s[0];
      [if 'A' <= c <= 'Z' then (c - 'A' + 'a') as char else c] + AsciiLower(s[1..])
  }

  // ---------------------------------------------------------------------------
  // What the replacements produce, against independent definitions

  /** `lines.join(sep)` for a separator string. */
  function JoinWith(lines: seq<string>, sep: string): string
    requires |lines| >= 1
  {
    if |lines| == 1 then lines[0] else lines[0] + sep + JoinWith(lines[1..], sep)
  }

  /** Text put in front of the first line comes out in front of the join. */
  lemma JoinWithExtendFirst(x: string, lines: seq<string>, sep: string)
    requires |lines| >= 1
    ensures JoinWith([x + lines[0]] + lines[1..], sep) == x + JoinWith(lines, sep)
  {
    var ext := [x + lines[0]] + lines[1..];
    if |lines| > 1 {
      assert ext[1..] == lines[1..];
    }
  }

  /** Replacing every occurrence of a one-character pattern is splitting at it and
      joining the pieces with the replacement: `s.split(c).join(rep)`. */
  lemma {:induction false} ReplaceAllChar(s: string, c: char, rep: string)
    ensures ReplaceAll(s, [c], rep) == JoinWith(Split(s, c), rep)
    decreases |s|
  {
    if s != [] {
      ReplaceAllChar(s[1..], c, rep);
      var rest := Split(s[1..], c);
      assert s[..1] == [s[0]];
      if s[0] == c {
        assert Split(s, c) == [[]] + rest;
        assert ([[]] + rest)[1..] == rest;
      } else {
        JoinWithExtendFirst([s[0]], rest, rep);
      }
    }
  }

  /** Text that does not hold the pattern's first character passes through unchanged. */
  lemma {:induction false} ReplaceAllPrefixFree(x: string, y: string, pat: string, rep: string)
    requires pat != [] && pat[0] !in x
    ensures ReplaceAll(x + y, pat, rep) == x + ReplaceAll(y, pat, rep)
    decreases |x|
  {
    if x == [] {
      assert x + y == y;
    } else {
      var s := x + y;
      if |s| < |pat| {
        assert ReplaceAll(y, pat, rep) == y;
      } else {
        assert s[..|pat|][0] == s[0];
        ReplaceAllSkip(s, pat, rep);
        assert s[1..] == x[1..] + y;
        assert pat[0] !in x[1..];
        ReplaceAllPrefixFree(x[1..], y, pat, rep);
        ConsAssoc(x, ReplaceAll(y, pat, rep));
      }
    }
  }

  /** A text that does not open with the pattern keeps its first character, and the
      scan goes on from the next one. */
  lemma ReplaceAllSkip(s: string, pat: string, rep: string)
    requires pat != [] && s != [] && (|s| < |pat| || s[..|pat|] != pat)
    ensures ReplaceAll(s, pat, rep) == [s[0]] + ReplaceAll(s[1..], pat, rep)
  {
    if |s| < |pat| {
      assert [s[0]] + s[1..] == s;
    }
  }

  /** Splitting off the first character of a concatenation. */
  lemma ConsAssoc(x: string, r: string)
    requires x != []
    ensures x + r == [x[0]] + (x[1..] + r)
  {
    assert x == [x[0]] + x[1..];
  }

  /** The first occurrence of the pattern becomes the replacement; the text in front
      of it is kept and the text after it is replaced in turn. */
  lemma ReplaceAllOccurrence(x: string, y: string, pat: string, rep: string)
    requires pat != [] && pat[0] !in x
    ensures ReplaceAll(x + pat + y, pat, rep) == x + rep + ReplaceAll(y, pat, rep)
  {
    ReplaceAllPrefixFree(x, pat + y, pat, rep);
    assert x + pat + y == x + (pat + y);
    assert (pat + y)[..|pat|] == pat && (pat + y)[|pat|..] == y;
  }

  /** `s` with every `c` that directly follows another `c` deleted: each run of `c`
      shrinks to a single `c`. */
  function SquashRepeats(s: string, c: char): string
    decreases |s|
  {
    if |s| < 2 then s
    else if s[0] == c && s[1] == c then SquashRepeats(s[1..], c)
    else [s[0]] + SquashRepeats(s[1..], c)
  }

  /** A run of `c` at the front squashes to one `c`. */
  lemma {:induction false} SquashRun(s: string, c: char)
    requires s != [] && s[0] == c
    ensures SquashRepeats(s, c) == [c] + SquashRepeats(DropRun(s, c), c)
    decreases |s|
  {
    if |s| == 1 {
      assert DropRun(s, c) == DropRun(s[1..], c) == [];
    } else if s[1] == c {
      SquashRun(s[1..], c);
    } else {
      assert DropRun(s, c) == s[1..];
    }
  }

  /** `s.replace(/c+/g, rep)` is squashing every run of `c` to one `c` and then
      replacing every `c` by `rep`. */
  lemma {:induction false} ReplaceRunsSquash(s: string, c: char, rep: string)
    ensures ReplaceRuns(s, c, rep) == ReplaceAll(SquashRepeats(s, c), [c], rep)
    decreases |s|
  {
    if s == [] {
    } else if s[0] == c {
      var t := DropRun(s, c);
      ReplaceRunsSquash(t, c, rep);
      SquashRun(s, c);
      ReplaceAllOccurrence([], SquashRepeats(t, c), [c], rep);
      assert [] + [c] + SquashRepeats(t, c) == [c] + SquashRepeats(t, c);
    } else {
      ReplaceRunsSquash(s[1..], c, rep);
      assert SquashRepeats(s, c) == [s[0]] + SquashRepeats(s[1..], c);
      ReplaceAllPrefixFree([s[0]], SquashRepeats(s[1..], c), [c], rep);
    }
  }

  /** Replacing a character by itself changes nothing. */
  lemma {:induction false} ReplaceAllSelf(s: string, c: char)
    ensures ReplaceAll(s, [c], [c]) == s
    decreases |s|
  {
    if s != [] {
      ReplaceAllSelf(s[1..], c);
      assert s[..1] == [s[0]];
      assert s == [s[0]] + s[1..];
    }
  }

  /** `replace(/\n+/g, '\n')` keeps the text and deletes every line feed that directly
      follows a line feed. */
  lemma CollapseNewlinesSquashes(s: string)
    ensures CollapseNewlines(s) == SquashRepeats(s, '\n')
  {
    ReplaceRunsSquash(s, '\n', "\n");
    ReplaceAllSelf(SquashRepeats(s, '\n'), '\n');
  }

  /** `replace(/\|+/g, '\\|')` squashes every run of pipes to one pipe and writes each
      pipe left as `\|`. */
  lemma EscapePipeRunsSquashes(s: string)
    ensures EscapePipeRuns(s) == JoinWith(Split(SquashRepeats(s, '|'), '|'), "\\|")
  {
    ReplaceRunsSquash(s, '|', "\\|");
    ReplaceAllChar(SquashRepeats(s, '|'), '|', "\\|");
  }

  /** `s.repeat(n)` is `n` copies of `s`: it opens with `s` and repeats with period `|s|`. */
  lemma RepeatCopies(s: string, n: nat)
    ensures var r := Repeat(s, n);
      && (n == 0 ==> r == [])
      && (n > 0 ==> r[..|s|] == s)
      && forall i | |s| <= i < |r| :: r[i] == r[i - |s|]
  {
    if n > 0 {
      RepeatFront(s, n);
      var r := Repeat(s, n);
      var r' := Repeat(s, n - 1);
      assert r == s + r' && r == r' + s;
    }
  }

  /** The copies can be counted off from the front as well. */
  lemma {:induction false} RepeatFront(s: string, n: nat)
    requires n > 0
    ensures Repeat(s, n) == s + Repeat(s, n - 1)
  {
    if n > 1 {
      RepeatFront(s, n - 1);
      assert Repeat(s, n) == (s + Repeat(s, n - 2)) + s;
    } else {
      assert Repeat(s, 0) == [];
    }
  }
}
