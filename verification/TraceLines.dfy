/** The trace filter line by line: which lines come out, which are left out, and where the ellipses stand. */
module TraceLines {
  import opened TraceFilter

  /** An instruction line: H, white space, $, hexadecimal digits, a backquote, the ROM's tag, anything. */
  ghost predicate Tagged(line: Line, spaces: string, digits: string, tag: char, rest: string) {
    && line == "H" + spaces + "$" + digits + "`" + [tag] + rest && spaces != "" && digits != "" && IsTag(tag)
    && (forall k :: 0 <= k < |spaces| ==> IsSpace(spaces[k])) && (forall k :: 0 <= k < |digits| ==> IsHex(digits[k]))
  }

  /** One whose ROM is not kept. */
  ghost predicate Other(line: Line, keep: set<char>) {
    exists spaces, digits, tag, rest :: Tagged(line, spaces, digits, tag, rest) && tag !in keep
  }

  lemma OtherIsForeign(line: Line, keep: set<char>)
    ensures Other(line, keep) <==> Foreign(line, keep)
  {
    hide RomTag, IsSpace, IsHex, IsTag;
    if Other(line, keep) {
      var spaces, digits, tag, rest :| Tagged(line, spaces, digits, tag, rest) && tag !in keep;
      assert Instance(line, spaces, digits, tag, rest);
      RomTagIsPattern(line, tag);
    }
    if Foreign(line, keep) {
      RomTagIsPattern(line, RomTag(line).value);
      var spaces, digits, rest :| Instance(line, spaces, digits, RomTag(line).value, rest);
      assert Tagged(line, spaces, digits, RomTag(line).value, rest);
    }
  }

  /** Line i stands between two others, and all three are of other ROMs. */
  ghost predicate Inside(lines: seq<Line>, i: int, keep: set<char>) {
    0 < i < |lines| - 1 && Other(lines[i - 1], keep) && Other(lines[i], keep) && Other(lines[i + 1], keep)
  }

  /** What is written for line i: itself, unless it is inside such a stretch; of those left out only the first leaves
      something, an ellipsis. */
  ghost function Shown(lines: seq<Line>, i: nat, keep: set<char>): seq<Line>
    requires i < |lines|
  {
    if !Inside(lines, i, keep) then [lines[i]] else if !Inside(lines, i - 1, keep) then ["...\n"] else []
  }

  ghost function AllShown(lines: seq<Line>, from: nat, keep: set<char>): seq<Line>
    decreases |lines| - from
  {
    if from >= |lines| then [] else Shown(lines, from, keep) + AllShown(lines, from + 1, keep)
  }

  /** The filter writes just that, line after line: every line of a kept ROM and every untagged line verbatim and in
      order, every line of another ROM that has no such line on both sides, and one ellipsis for each gap. */
  lemma {:induction false} FilterShows(lines: seq<Line>, keep: set<char>)
    ensures Collapse(lines, keep) == AllShown(lines, 0, keep)
    decreases |lines|
  {
    hide AllShown, CollapseRun, Foreign, Other, Shown;
    if lines == [] {
      assert AllShown(lines, 0, keep) == [] by { NothingShown(lines, keep); }
    } else {
      var n := RunLength(lines, keep);
      if n == 0 {
        FilterShows(lines[1..], keep);
        FirstShown(lines, keep);
        if |lines| > 1 { Suffix(lines, 1, 0, keep); } else { NothingAfter(lines, keep); }
        assert Collapse(lines, keep) == [lines[0]] + Collapse(lines[1..], keep);
      } else {
        FilterShows(lines[n..], keep);
        RunShown(lines, n, keep);
        if n < |lines| { Suffix(lines, n, 0, keep); } else { NothingAfter(lines, keep); }
        assert Collapse(lines, keep) == CollapseRun(lines[..n]) + Collapse(lines[n..], keep);
      }
    }
  }

  lemma NothingShown(lines: seq<Line>, keep: set<char>)
    ensures AllShown(lines, |lines|, keep) == []
  {}

  lemma NothingAfter(lines: seq<Line>, keep: set<char>)
    ensures AllShown(lines[|lines|..], 0, keep) == AllShown(lines, |lines|, keep) == []
  {}

  lemma FirstShown(lines: seq<Line>, keep: set<char>)
    requires lines != []
    ensures AllShown(lines, 0, keep) == [lines[0]] + AllShown(lines, 1, keep)
  {}

  lemma InsideIs(lines: seq<Line>, i: int, keep: set<char>)
    ensures Inside(lines, i, keep) <==>
      0 < i < |lines| - 1 && Foreign(lines[i - 1], keep) && Foreign(lines[i], keep) && Foreign(lines[i + 1], keep)
  {
    if 0 < i < |lines| - 1 {
      OtherIsForeign(lines[i - 1], keep);
      OtherIsForeign(lines[i], keep);
      OtherIsForeign(lines[i + 1], keep);
    }
  }

  /** Past a line that ends or follows a run, the lines before do not matter. */
  lemma {:induction false} Suffix(lines: seq<Line>, m: nat, i: nat, keep: set<char>)
    requires 0 < m < |lines| && (!Foreign(lines[m], keep) || !Foreign(lines[m - 1], keep))
    ensures AllShown(lines, m + i, keep) == AllShown(lines[m..], i, keep)
    decreases |lines| - i
  {
    hide Foreign, Shown;
    if m + i < |lines| {
      SameShown(lines, m, i, keep);
      Suffix(lines, m, i + 1, keep);
    }
  }

  lemma SameShown(lines: seq<Line>, m: nat, i: nat, keep: set<char>)
    requires 0 < m < |lines| && (!Foreign(lines[m], keep) || !Foreign(lines[m - 1], keep)) && m + i < |lines|
    ensures Shown(lines, m + i, keep) == Shown(lines[m..], i, keep)
  {
    SameInside(lines, m, i, keep);
    if i > 0 { SameInside(lines, m, i - 1, keep); }
    hide Foreign, Inside;
    if i == 0 { NotInside(lines[m..], keep); }
  }

  lemma SameInside(lines: seq<Line>, m: nat, i: nat, keep: set<char>)
    requires 0 < m < |lines| && (!Foreign(lines[m], keep) || !Foreign(lines[m - 1], keep)) && m + i < |lines|
    ensures Inside(lines, m + i, keep) <==> Inside(lines[m..], i, keep)
  {
    InsideIs(lines, m + i, keep);
    InsideIs(lines[m..], i, keep);
    hide Foreign, Inside;
  }

  lemma NotInside(lines: seq<Line>, keep: set<char>)
    ensures !Inside(lines, 0, keep)
  {}

  /** A run of other ROMs' lines, up to a line that is not one. */
  lemma RunShown(lines: seq<Line>, n: nat, keep: set<char>)
    requires 0 < n == RunLength(lines, keep)
    ensures AllShown(lines, 0, keep) == CollapseRun(lines[..n]) + AllShown(lines, n, keep)
  {
    hide AllShown, Foreign, Shown, Inside, RunLength;
    var run, rest := lines[..n], AllShown(lines, n, keep);
    FirstShown(lines, keep);
    if n >= 2 { LastShown(lines, n, keep); }
    if n >= 3 {
      Gap(lines, n, 2, keep);
      SecondShown(lines, n, keep);
      assert CollapseRun(run) == [lines[0]] + ["...\n"] + [lines[n - 1]];
      assert [lines[0]] + (["...\n"] + ([lines[n - 1]] + rest)) == [lines[0]] + ["...\n"] + [lines[n - 1]] + rest;
    } else if n == 2 {
      assert CollapseRun(run) == [lines[0]] + [lines[1]];
      assert [lines[0]] + ([lines[1]] + rest) == [lines[0]] + [lines[1]] + rest;
    } else {
      assert CollapseRun(run) == [lines[0]];
    }
  }

  lemma LastShown(lines: seq<Line>, n: nat, keep: set<char>)
    requires 2 <= n == RunLength(lines, keep)
    ensures AllShown(lines, n - 1, keep) == [lines[n - 1]] + AllShown(lines, n, keep)
  {
    hide Foreign, Inside;
    InsideIs(lines, n - 1, keep);
  }

  lemma SecondShown(lines: seq<Line>, n: nat, keep: set<char>)
    requires 3 <= n == RunLength(lines, keep)
    ensures AllShown(lines, 1, keep) == ["...\n"] + AllShown(lines, 2, keep)
  {
    hide Foreign, Inside;
    InsideIs(lines, 1, keep);
    InsideIs(lines, 0, keep);
  }

  lemma {:induction false} Gap(lines: seq<Line>, n: nat, i: nat, keep: set<char>)
    requires 3 <= n == RunLength(lines, keep) && 2 <= i <= n - 1
    ensures AllShown(lines, i, keep) == AllShown(lines, n - 1, keep)
    decreases n - i
  {
    hide Foreign, Inside;
    if i < n - 1 {
      InsideIs(lines, i, keep);
      InsideIs(lines, i - 1, keep);
      Gap(lines, n, i + 1, keep);
    }
  }

  // ------------------------------------------------------------- the characters

  /** The pattern's character classes by code point; of white space, the ASCII part. */
  lemma Classes(c: char)
    ensures var n := c as int;
      && (IsHex(c) <==> 48 <= n <= 57 || 65 <= n <= 70 || 97 <= n <= 102)
      && (IsTag(c) <==> 48 <= n <= 57 || 65 <= n <= 90 || 97 <= n <= 122)
      && (n < 128 ==> (IsSpace(c) <==> 9 <= n <= 13 || 28 <= n <= 32))
  {}
}
