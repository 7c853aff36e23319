/** filter_stream: a one-pass filter that collapses runs of trace lines from other ROMs. */
module TraceFilter {
  import opened Bytes

  type Line = string

  // ----------------------------------------------------------------- ROM tags

  /** \s for text */
  predicate IsSpace(c: char) {
    || c == ' ' || '\t' <= c <= '\r' || '\U{1C}' <= c <= '\U{1F}' || c == '\U{85}' || c == '\U{A0}' || c == '\U{1680}'
    || '\U{2000}' <= c <= '\U{200A}' || c == '\U{2028}' || c == '\U{2029}' || c == '\U{202F}' || c == '\U{205F}'
    || c == '\U{3000}'
  }

  predicate IsHex(c: char) {
    '0' <= c <= '9' || 'a' <= c <= 'f' || 'A' <= c <= 'F'
  }

  predicate IsTag(c: char) {
    '0' <= c <= '9' || 'a' <= c <= 'z' || 'A' <= c <= 'Z'
  }

  /** Where a run of characters of one kind ends. */
  function SkipWhile(line: Line, from: nat, kind: char -> bool): (to: nat)
    requires from <= |line|
    ensures from <= to <= |line|
    ensures forall k :: from <= k < to ==> kind(line[k])
    ensures to < |line| ==> !kind(line[to])
    decreases |line| - from
  {
    if from < |line| && kind(line[from]) then SkipWhile(line, from + 1, kind) else from
  }

  /** The tag of an instruction line: H, spaces, $, hex digits, a backquote, the tag. */
  function RomTag(line: Line): Option<char> {
    if |line| == 0 || line[0] != 'H' then None
    else
      var a := SkipWhile(line, 1, IsSpace);
      if a == 1 || a >= |line| || line[a] != '$' then None
      else
        var b := SkipWhile(line, a + 1, IsHex);
        if b == a + 1 || b + 1 >= |line| || line[b] != '`' || !IsTag(line[b + 1]) then None
        else Some(line[b + 1])
  }

  /** `line` is an instance of the pattern with these parts. */
  ghost predicate Instance(line: Line, spaces: string, digits: string, tag: char, rest: string) {
    && line == "H" + spaces + "$" + digits + "`" + [tag] + rest
    && spaces != "" && (forall k :: 0 <= k < |spaces| ==> IsSpace(spaces[k]))
    && digits != "" && (forall k :: 0 <= k < |digits| ==> IsHex(digits[k]))
    && IsTag(tag)
  }

  lemma SkipTo(line: Line, from: nat, kind: char -> bool, end: nat)
    requires from <= end < |line| && !kind(line[end]) && forall k :: from <= k < end ==> kind(line[k])
    ensures SkipWhile(line, from, kind) == end
  {
    var to := SkipWhile(line, from, kind);
    assert to >= end;
  }

  /** The scan finds a tag exactly on the lines the pattern matches, and it is the pattern's tag. */
  lemma RomTagIsPattern(line: Line, tag: char)
    ensures RomTag(line) == Some(tag) <==>
            exists spaces, digits, rest :: Instance(line, spaces, digits, tag, rest)
  {
    if RomTag(line) == Some(tag) { TagHasParts(line, tag); }
    if spaces, digits, rest :| Instance(line, spaces, digits, tag, rest) {
      PartsGiveTag(line, spaces, digits, tag, rest);
    }
  }

  lemma TagHasParts(line: Line, tag: char)
    requires RomTag(line) == Some(tag)
    ensures exists spaces, digits, rest :: Instance(line, spaces, digits, tag, rest)
  {
    hide IsSpace, IsHex, IsTag;
    var a := SkipWhile(line, 1, IsSpace);
    var b := SkipWhile(line, a + 1, IsHex);
    hide SkipWhile;
    var spaces, digits, rest := line[1..a], line[a + 1..b], line[b + 2..];
    assert line == "H" + spaces + "$" + digits + "`" + [tag] + rest;
    assert Instance(line, spaces, digits, tag, rest);
  }

  lemma PartsGiveTag(line: Line, spaces: string, digits: string, tag: char, rest: string)
    requires Instance(line, spaces, digits, tag, rest)
    ensures RomTag(line) == Some(tag)
  {
    assert !IsSpace('$') && !IsHex('`');
    hide IsSpace, IsHex, IsTag, SkipWhile;
    var a := 1 + |spaces|;
    var b := a + 1 + |digits|;
    assert line[0] == 'H' && line[a] == '$' && line[b] == '`' && line[b + 1] == tag;
    forall k | 1 <= k < a
      ensures IsSpace(line[k])
    {
      assert line[k] == spaces[k - 1];
    }
    forall k | a + 1 <= k < b
      ensures IsHex(line[k])
    {
      assert line[k] == digits[k - a - 1];
    }
    SkipTo(line, 1, IsSpace, a);
    SkipTo(line, a + 1, IsHex, b);
  }

  const ELLIPSIS: Line := "...\n"

  /** An instruction line of a ROM that is not kept. */
  predicate Foreign(line: Line, keep: set<char>) {
    RomTag(line).Some? && RomTag(line).value !in keep
  }

  // --------------------------------------------------- the batch specification

  function RunLength(lines: seq<Line>, keep: set<char>): (n: nat)
    ensures n <= |lines|
    ensures forall k :: 0 <= k < n ==> Foreign(lines[k], keep)
    ensures n < |lines| ==> !Foreign(lines[n], keep)
  {
    if lines == [] || !Foreign(lines[0], keep) then 0 else 1 + RunLength(lines[1..], keep)
  }

  /** First line, an ellipsis if three or more, last line if two or more. */
  function CollapseRun(run: seq<Line>): seq<Line>
    requires run != []
  {
    [run[0]] + (if |run| >= 3 then [ELLIPSIS] else []) + (if |run| >= 2 then [run[|run| - 1]] else [])
  }

  /** Each maximal run of foreign lines collapsed, every other line kept. */
  function Collapse(lines: seq<Line>, keep: set<char>): seq<Line>
    decreases |lines|
  {
    if lines == [] then []
    else
      var n := RunLength(lines, keep);
      if n == 0 then [lines[0]] + Collapse(lines[1..], keep)
      else CollapseRun(lines[..n]) + Collapse(lines[n..], keep)
  }

  // --------------------------------------------------------------- one pass

  /** What filter_stream still has to write for a run whose first line is out: tail_count more lines
      seen, the last of them buffered. */
  function Tail(tailCount: nat, last: Line): seq<Line> {
    if tailCount == 0 then [] else if tailCount == 1 then [last] else [ELLIPSIS, last]
  }

  function Finish(inExternal: bool, tailCount: nat, last: Line, rest: seq<Line>, keep: set<char>): seq<Line> {
    if !inExternal then Collapse(rest, keep)
    else
      var n := RunLength(rest, keep);
      Tail(tailCount + n, if n == 0 then last else rest[n - 1]) + Collapse(rest[n..], keep)
  }

  lemma RunLengthNext(lines: seq<Line>, i: nat, keep: set<char>)
    requires i < |lines|
    ensures Foreign(lines[i], keep) ==> RunLength(lines[i..], keep) == 1 + RunLength(lines[i + 1..], keep)
    ensures !Foreign(lines[i], keep) ==> RunLength(lines[i..], keep) == 0
  {
    assert lines[i..][1..] == lines[i + 1..];
  }

  lemma FinishNext(inExternal: bool, tailCount: nat, last: Line, lines: seq<Line>, i: nat, keep: set<char>)
    requires i < |lines|
    ensures Finish(inExternal, tailCount, last, lines[i..], keep) ==
      if Foreign(lines[i], keep) then
        (if inExternal then Finish(true, tailCount + 1, lines[i], lines[i + 1..], keep)
         else [lines[i]] + Finish(true, 0, lines[i], lines[i + 1..], keep))
      else (if inExternal then Tail(tailCount, last) else []) + [lines[i]] + Finish(false, 0, "", lines[i + 1..], keep)
  {
    hide Foreign, CollapseRun, Tail;
    var rest := lines[i..];
    assert rest[0] == lines[i] && rest[1..] == lines[i + 1..];
    RunLengthNext(lines, i, keep);
    if Foreign(lines[i], keep) {
      ForeignNext(inExternal, tailCount, last, rest, lines[i + 1..], keep);
    } else {
      TailZero(tailCount, last);
      assert rest[0..] == rest;
      assert Collapse(rest, keep) == [lines[i]] + Collapse(lines[i + 1..], keep);
    }
  }

  lemma TailZero(tailCount: nat, last: Line)
    ensures Tail(0, last) == [] && Tail(tailCount + 0, last) == Tail(tailCount, last)
  {}

  lemma ForeignNext(inExternal: bool, tailCount: nat, last: Line, rest: seq<Line>, next: seq<Line>, keep: set<char>)
    requires rest != [] && rest[1..] == next && Foreign(rest[0], keep)
    ensures Finish(inExternal, tailCount, last, rest, keep) ==
      if inExternal then Finish(true, tailCount + 1, rest[0], next, keep)
      else [rest[0]] + Finish(true, 0, rest[0], next, keep)
  {
    hide Foreign, Collapse, CollapseRun, Tail;
    var n := RunLength(rest, keep);
    assert n == 1 + RunLength(next, keep);
    assert rest[n..] == next[n - 1..];
    assert n > 1 ==> rest[n - 1] == next[n - 2];
    if !inExternal {
      RunAsTail(rest[..n]);
      CollapseForeign(rest, keep);
    }
  }

  lemma RunAsTail(run: seq<Line>)
    requires run != []
    ensures CollapseRun(run) == [run[0]] + Tail(|run| - 1, run[|run| - 1])
  {}

  lemma CollapseForeign(rest: seq<Line>, keep: set<char>)
    requires rest != [] && Foreign(rest[0], keep)
    ensures var n := RunLength(rest, keep);
      n > 0 && Collapse(rest, keep) == CollapseRun(rest[..n]) + Collapse(rest[n..], keep)
  {
    hide Foreign, CollapseRun;
  }

  /** What is written when a run ends, at three places in filter_stream. */
  method WriteTail(before: seq<Line>, tailCount: nat, lastExternal: Line) returns (out: seq<Line>)
    ensures out == before + Tail(tailCount, lastExternal)
  {
    out := before;
    if tailCount == 1 {
      out := out + [lastExternal];
    } else if tailCount >= 2 {
      out := out + [ELLIPSIS];
      out := out + [lastExternal];
    }
  }

  /** filter_stream: `out` is what has been written, line by line. */
  method FilterStream(lines: seq<Line>, keep: set<char>) returns (out: seq<Line>)
    ensures out == Collapse(lines, keep)
  {
    hide Collapse, RunLength, Finish, RomTag, Tail;
    var inExternal, tailCount, lastExternal, i := false, 0, "", 0;
    out := [];
    FinishStart(lines, keep);
    while i < |lines|
      invariant i <= |lines|
      invariant out + Finish(inExternal, tailCount, lastExternal, lines[i..], keep) == Collapse(lines, keep)
    {
      var line := lines[i];
      FinishNext(inExternal, tailCount, lastExternal, lines, i, keep);
      i := i + 1;
      var tag := RomTag(line);
      if tag.None? || tag.value in keep {
        if inExternal {
          out := WriteTail(out, tailCount, lastExternal);
          inExternal, tailCount, lastExternal := false, 0, "";
        }
        out := out + [line];
        FinishIdle(tailCount, lastExternal, lines[i..], keep);
      } else if !inExternal {
        out := out + [line];
        inExternal, tailCount, lastExternal := true, 0, line;
      } else {
        tailCount, lastExternal := tailCount + 1, line;
      }
    }
    FinishEnd(inExternal, tailCount, lastExternal, lines, keep);
    if inExternal { out := WriteTail(out, tailCount, lastExternal); }
  }

  lemma FinishStart(lines: seq<Line>, keep: set<char>)
    ensures [] + Finish(false, 0, "", lines[0..], keep) == Collapse(lines, keep)
  {
    assert lines[0..] == lines;
  }

  /** Outside a run the counters do not matter. */
  lemma FinishIdle(tailCount: nat, last: Line, rest: seq<Line>, keep: set<char>)
    ensures Finish(false, tailCount, last, rest, keep) == Finish(false, 0, "", rest, keep)
  {}

  lemma FinishEnd(inExternal: bool, tailCount: nat, last: Line, lines: seq<Line>, keep: set<char>)
    ensures Finish(inExternal, tailCount, last, lines[|lines|..], keep) ==
            if inExternal then Tail(tailCount, last) else []
  {}

  // --------------------------------------------------------------- properties

  /** The filter never writes more lines than it reads. */
  lemma {:induction false} NeverLonger(lines: seq<Line>, keep: set<char>)
    ensures |Collapse(lines, keep)| <= |lines|
    decreases |lines|
  {
    if lines == [] {
    } else {
      var n := RunLength(lines, keep);
      NeverLonger(lines[if n == 0 then 1 else n..], keep);
    }
  }

  /** A collapsed run in front of a line that is not foreign is left alone. */
  lemma CollapsedRunStays(run: seq<Line>, rest: seq<Line>, keep: set<char>)
    requires run != [] && (forall k :: 0 <= k < |run| ==> Foreign(run[k], keep))
    requires rest == [] || !Foreign(rest[0], keep)
    ensures Collapse(CollapseRun(run) + rest, keep) == CollapseRun(run) + Collapse(rest, keep)
  {
    hide Foreign;
    if |run| >= 3 {
      LongRunStays(run[0], run[|run| - 1], rest, keep);
      assert CollapseRun(run) == [run[0], ELLIPSIS, run[|run| - 1]];
    } else {
      assert CollapseRun(run) == run;
      RunThenRest(run, rest, keep);
    }
  }

  lemma LongRunStays(first: Line, last: Line, rest: seq<Line>, keep: set<char>)
    requires Foreign(first, keep) && Foreign(last, keep)
    requires rest == [] || !Foreign(rest[0], keep)
    ensures Collapse([first, ELLIPSIS, last] + rest, keep) == [first, ELLIPSIS, last] + Collapse(rest, keep)
  {
    hide Collapse, CollapseRun, Foreign;
    EllipsisIsNotForeign(keep);
    MarkedStays(last, rest, keep);
    var marked, c := [ELLIPSIS] + ([last] + rest), Collapse(rest, keep);
    RunThenRest([first], marked, keep);
    OneLineRun(first);
    assert [first, ELLIPSIS, last] + rest == [first] + marked;
    assert [first] + ([ELLIPSIS, last] + c) == [first, ELLIPSIS, last] + c;
  }

  lemma OneLineRun(line: Line)
    ensures CollapseRun([line]) == [line]
  {}

  lemma MarkedStays(last: Line, rest: seq<Line>, keep: set<char>)
    requires Foreign(last, keep) && (rest == [] || !Foreign(rest[0], keep))
    ensures Collapse([ELLIPSIS] + ([last] + rest), keep) == [ELLIPSIS, last] + Collapse(rest, keep)
  {
    EllipsisIsNotForeign(keep);
    RunThenRest([last], rest, keep);
    KeptThenRest(ELLIPSIS, [last] + rest, keep);
    OneLineRun(last);
    hide Collapse, CollapseRun, Foreign;
    assert [ELLIPSIS] + ([last] + Collapse(rest, keep)) == [ELLIPSIS, last] + Collapse(rest, keep);
  }

  lemma KeptThenRest(line: Line, rest: seq<Line>, keep: set<char>)
    requires !Foreign(line, keep)
    ensures Collapse([line] + rest, keep) == [line] + Collapse(rest, keep)
  {
    hide Foreign;
    assert ([line] + rest)[1..] == rest;
  }

  lemma EllipsisIsNotForeign(keep: set<char>)
    ensures !Foreign(ELLIPSIS, keep)
  {}

  lemma RunThenRest(run: seq<Line>, rest: seq<Line>, keep: set<char>)
    requires run != [] && (forall k :: 0 <= k < |run| ==> Foreign(run[k], keep))
    requires rest == [] || !Foreign(rest[0], keep)
    ensures Collapse(run + rest, keep) == CollapseRun(run) + Collapse(rest, keep)
  {
    RunLengthOf(run, rest, keep);
    assert (run + rest)[..|run|] == run && (run + rest)[|run|..] == rest;
  }

  lemma {:induction false} RunLengthOf(run: seq<Line>, rest: seq<Line>, keep: set<char>)
    requires forall k :: 0 <= k < |run| ==> Foreign(run[k], keep)
    requires rest == [] || !Foreign(rest[0], keep)
    ensures RunLength(run + rest, keep) == |run|
  {
    hide Foreign;
    if run == [] {
      assert run + rest == rest;
    } else {
      RunLengthOf(run[1..], rest, keep);
      assert (run + rest)[1..] == run[1..] + rest;
    }
  }

  /** Filtering twice is filtering once. */
  lemma {:induction false} Idempotent(lines: seq<Line>, keep: set<char>)
    ensures Collapse(Collapse(lines, keep), keep) == Collapse(lines, keep)
    ensures Collapse(lines, keep) != [] && lines != [] ==> Collapse(lines, keep)[0] == lines[0]
    decreases |lines|
  {
    if lines == [] {
    } else {
      var n := RunLength(lines, keep);
      if n == 0 {
        var rest := Collapse(lines[1..], keep);
        Idempotent(lines[1..], keep);
        assert ([lines[0]] + rest)[1..] == rest;
      } else {
        Idempotent(lines[n..], keep);
        CollapsedRunStays(lines[..n], Collapse(lines[n..], keep), keep);
      }
    }
  }
}
