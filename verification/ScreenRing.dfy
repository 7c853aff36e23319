/** Reading a screen that wraps: two peeks at an emulator, and line extraction from a dump. */
module ScreenRing {
  import opened Bytes

  // ---------------------------------------------------------- b2-http: cmd_screen

  /** screen_address_to_offset; screen_size is positive. */
  function Offset(addr: int, wrap: int, screenSize: nat): (r: nat)
    requires screenSize > 0
    ensures r < screenSize
  {
    (addr - wrap) % 0x8000 % screenSize
  }

  function AlignedStart(start: int, wrap: int): int {
    (start - wrap) % 0x8000 + wrap
  }

  function Base(start: int, wrap: int, screenSize: nat): int
    requires screenSize > 0
  {
    AlignedStart(start, wrap) - Offset(start, wrap, screenSize)
  }

  datatype ScreenError = BadStride | BadScreenSize | NegativeBase

  /** One request; a negative line count asks for a negative size, which is no byte at all. */
  datatype Peek = Peek(address: nat, size: int)

  /** The one or two peeks of cmd_screen. */
  function Peeks(start: int, charsPerLine: int, stride: int, lines: int, screenSize: int, wrap: int)
    : Result<seq<Peek>, ScreenError>
  {
    if stride < charsPerLine then Err(BadStride)
    else if screenSize <= 0 then Err(BadScreenSize)
    else if Base(start, wrap, screenSize) < 0 then Err(NegativeBase)
    else
      var size, base, offset := lines * stride, Base(start, wrap, screenSize), Offset(start, wrap, screenSize);
      var first := Min(size, screenSize - offset);
      var second := size - first;
      Ok([Peek(base + offset, first)] + if second == 0 then [] else [Peek(base, second)])
  }

  /** The addresses the joined responses come from, in order. */
  function Addresses(peeks: seq<Peek>): seq<nat> {
    if peeks == [] then []
    else seq(Max(0, peeks[0].size), k requires 0 <= k => peeks[0].address + k) + Addresses(peeks[1..])
  }

  /** base is a whole number of screens above the wrap point, and base + offset is the aligned start. */
  lemma BaseIsWholeScreens(start: int, wrap: int, screenSize: nat)
    requires screenSize > 0
    ensures (Base(start, wrap, screenSize) - wrap) % screenSize == 0
    ensures Base(start, wrap, screenSize) + Offset(start, wrap, screenSize) == AlignedStart(start, wrap)
    ensures AlignedStart(start, wrap) % 0x8000 == start % 0x8000
    ensures wrap <= AlignedStart(start, wrap) < wrap + 0x8000
  {
    var x := (start - wrap) % 0x8000;
    var q, r := x / screenSize, x % screenSize;
    assert x == screenSize * q + r;
    assert Base(start, wrap, screenSize) - wrap == screenSize * q;
    Whole(q, screenSize);
    assert start == 0x8000 * ((start - wrap) / 0x8000) + x + wrap;
    Congruent(AlignedStart(start, wrap), start, (start - wrap) / 0x8000);
  }

  lemma {:induction false} Whole(q: nat, n: nat)
    requires n > 0
    ensures n * q % n == 0
  {
    if q == 0 {
    } else {
      Whole(q - 1, n);
      Shift(n * (q - 1), n);
      assert n * q == n * (q - 1) + n;
    }
  }

  lemma Shift(a: nat, n: nat)
    requires n > 0
    ensures (a + n) % n == a % n
  {
    var q, r := a / n, a % n;
    assert a == q * n + r;
    assert (q + 1) * n + r == a + n;
    DivMod(q + 1, n, r);
  }

  lemma Congruent(a: int, b: int, q: int)
    requires b == 0x8000 * q + a
    ensures a % 0x8000 == b % 0x8000
  {}

  /** What is asked for: what is left of the screen from the aligned start, and the rest, if any, from the base;
      or nothing, for a stride below the line length, a screen of no size, or a base below zero. */
  lemma RequestsMade(start: int, charsPerLine: int, stride: int, lines: int, screenSize: int, wrap: int)
    ensures var r := Peeks(start, charsPerLine, stride, lines, screenSize, wrap);
      if stride < charsPerLine then r == Err(BadStride)
      else if screenSize <= 0 then r == Err(BadScreenSize)
      else
        var from, size := (start - wrap) % 0x8000, lines * stride;
        var room := screenSize - from % screenSize;
        if wrap + from - from % screenSize < 0 then r == Err(NegativeBase)
        else if size <= room then r == Ok([Peek(wrap + from, size)])
        else r == Ok([Peek(wrap + from, room), Peek(wrap + from - from % screenSize, size - room)])
  {
    var r := Peeks(start, charsPerLine, stride, lines, screenSize, wrap);
    if stride >= charsPerLine && screenSize > 0 && r.Ok? {
      var from, size := (start - wrap) % 0x8000, lines * stride;
      var room := screenSize - from % screenSize;
      assert Offset(start, wrap, screenSize) == from % screenSize;
      assert Base(start, wrap, screenSize) == wrap + from - from % screenSize;
      assert r.value[0] == Peek(wrap + from, if size <= room then size else room);
      if size <= room {
        assert r.value == [Peek(wrap + from, size)];
      } else {
        assert r.value == [Peek(wrap + from, room), Peek(wrap + from - from % screenSize, size - room)];
      }
    }
  }

  /** Byte k of the answer comes from the ring, for every k, exactly when the read does not go round a
      second time: offset + size <= 2 * screen_size, which lines * stride <= screen_size guarantees. */
  lemma PeeksFollowRing(start: int, charsPerLine: int, stride: int, lines: int, screenSize: int,
                                           wrap: int)
    requires Peeks(start, charsPerLine, stride, lines, screenSize, wrap).Ok?
    ensures screenSize > 0 && Base(start, wrap, screenSize) >= 0
    ensures |Addresses(Peeks(start, charsPerLine, stride, lines, screenSize, wrap).value)| == Max(0, lines * stride)
    ensures
      var addresses := Addresses(Peeks(start, charsPerLine, stride, lines, screenSize, wrap).value);
      var base, offset := Base(start, wrap, screenSize), Offset(start, wrap, screenSize);
      (forall k :: 0 <= k < lines * stride ==> addresses[k] == base + (offset + k) % screenSize)
      <==> lines * stride <= 0 || offset + lines * stride <= 2 * screenSize
  {
    var peeks := Peeks(start, charsPerLine, stride, lines, screenSize, wrap).value;
    var base, offset, size := Base(start, wrap, screenSize), Offset(start, wrap, screenSize), lines * stride;
    var first := Min(size, screenSize - offset);
    var addresses := Addresses(peeks);
    TwoPeeks(base, offset, first, size - first, peeks);
    forall k | 0 <= k < size
      ensures offset + k < 2 * screenSize ==> addresses[k] == base + (offset + k) % screenSize
      ensures offset + k == 2 * screenSize ==> addresses[k] != base + (offset + k) % screenSize
    {
      Wrapped(offset + k, screenSize);
    }
    if size > 0 && offset + size > 2 * screenSize {
      var k := 2 * screenSize - offset;
      assert 0 <= k < size && addresses[k] != base + (offset + k) % screenSize;
    }
  }

  lemma Wrapped(x: nat, n: nat)
    requires n > 0
    ensures x < n ==> x % n == x
    ensures n <= x < 2 * n ==> x % n == x - n
    ensures x == 2 * n ==> x % n == 0
  {
    if x >= n { Shift(x - n, n); }
    if x == 2 * n { Shift(0, n); }
  }

  lemma TwoPeeks(base: nat, offset: nat, first: int, second: nat, peeks: seq<Peek>)
    requires first < 0 ==> second == 0
    requires peeks == [Peek(base + offset, first)] + if second == 0 then [] else [Peek(base, second)]
    ensures |Addresses(peeks)| == Max(0, first) + second
    ensures forall k :: 0 <= k < first + second ==>
      Addresses(peeks)[k] == if k < first then base + offset + k else base + (k - first)
  {
    var rest: seq<Peek> := if second == 0 then [] else [Peek(base, second)];
    assert peeks[1..] == rest;
    assert |Addresses(rest)| == second && forall k :: 0 <= k < second ==> Addresses(rest)[k] == base + k by {
      if second > 0 { assert rest[1..] == []; }
    }
    var run := seq(Max(0, first), k requires 0 <= k => base + offset + k);
    assert Addresses(peeks) == run + Addresses(rest);
  }

  // ------------------------------------------------------------- extract_screen

  /** 32 to 126 as themselves, anything else a dot. */
  function Shown(b: byte): byte {
    if 32 <= b <= 126 then b else 46
  }

  function FileOffset(start: int, dumpBase: int, size: nat): nat
    requires size > 0
  {
    if start >= dumpBase then (start - dumpBase) % size else 0
  }

  /** Python's data[lo:hi] for lo inside the data: a negative hi counts from the end. */
  function Slice(data: seq<byte>, lo: nat, hi: int): seq<byte>
    requires lo <= |data|
  {
    var stop := if hi < 0 then Max(0, hi + |data|) else Min(hi, |data|);
    if lo < stop then data[lo..stop] else []
  }

  /** data[line_offset : ...] with the wrap case taken from the front of the dump. */
  function LineData(data: seq<byte>, lineOffset: nat, chars: int): seq<byte>
    requires lineOffset < |data|
  {
    if lineOffset + chars <= |data| then Slice(data, lineOffset, lineOffset + chars)
    else
      var need := chars - (|data| - lineOffset);
      data[lineOffset..] + Slice(data, 0, need)
  }

  function ShownLine(data: seq<byte>): (r: seq<byte>)
    ensures |r| == |data|
  {
    seq(|data|, k requires 0 <= k < |data| => Shown(data[k]))
  }

  /** The k-th byte of a line is the ring's, and the line has all its bytes exactly when the wrap needs no
      more than one whole dump: always if the dump holds a line. */
  lemma LineFollowsRing(data: seq<byte>, lineOffset: nat, chars: int)
    requires lineOffset < |data|
    ensures forall k :: 0 <= k < |LineData(data, lineOffset, chars)| ==>
      LineData(data, lineOffset, chars)[k] == data[(lineOffset + k) % |data|]
    ensures |LineData(data, lineOffset, chars)| == chars <==> 0 <= chars <= 2 * |data| - lineOffset
    ensures 0 <= chars <= |data| ==> |LineData(data, lineOffset, chars)| == chars
  {
    forall k | 0 <= k < |LineData(data, lineOffset, chars)|
      ensures LineData(data, lineOffset, chars)[k] == data[(lineOffset + k) % |data|]
    {
      Wrapped(lineOffset + k, |data|);
    }
  }

  /** The text of line `line`. */
  function TextLine(data: seq<byte>, fileOffset: nat, line: nat, chars: int): seq<byte>
    requires |data| > 0
  {
    ShownLine(LineData(data, (fileOffset + line * chars) % |data|, chars))
  }

  /** Character k of line n is byte n * chars + k of the screen, counting round the dump from where the display
      starts in it, or from its front if that is before it; what does not print is a dot. */
  lemma TextFollowsRing(data: seq<byte>, start: int, dumpBase: int, line: nat, chars: int, k: nat)
    requires |data| >= chars > k
    ensures |TextLine(data, FileOffset(start, dumpBase, |data|), line, chars)| == chars
    ensures var b := data[((if start >= dumpBase then start - dumpBase else 0) + line * chars + k) % |data|];
      TextLine(data, FileOffset(start, dumpBase, |data|), line, chars)[k] == if 32 <= b <= 126 then b else 46
  {
    hide TextLine, FileOffset;
    var from: nat := if start >= dumpBase then start - dumpBase else 0;
    CharacterAt(data, start, dumpBase, line, chars, k, line * chars);
    assert Mod(from + line * chars + k, |data|) == (from + line * chars + k) % |data|;
  }

  lemma CharacterAt(data: seq<byte>, start: int, dumpBase: int, line: nat, chars: int, k: nat, n: nat)
    requires |data| >= chars > k && n == line * chars
    ensures |TextLine(data, FileOffset(start, dumpBase, |data|), line, chars)| == chars
    ensures var b := data[Mod((if start >= dumpBase then start - dumpBase else 0) + n + k, |data|)];
      TextLine(data, FileOffset(start, dumpBase, |data|), line, chars)[k] == if 32 <= b <= 126 then b else 46
  {
    var x := Mod(FileOffset(start, dumpBase, |data|) + n, |data|);
    TextLineIs(data, FileOffset(start, dumpBase, |data|), line, chars, n);
    hide LineData, FileOffset, ShownLine, Mod, TextLine;
    CharacterOfLine(data, x, chars, k);
    IndexFromStart(start, dumpBase, |data|, n, k);
  }

  lemma TextLineIs(data: seq<byte>, fileOffset: nat, line: nat, chars: int, n: nat)
    requires |data| > 0 && n == line * chars
    ensures TextLine(data, fileOffset, line, chars) == ShownLine(LineData(data, Mod(fileOffset + n, |data|), chars))
  {}

  lemma CharacterOfLine(data: seq<byte>, lineOffset: nat, chars: int, k: nat)
    requires lineOffset < |data| && |data| >= chars > k
    ensures |ShownLine(LineData(data, lineOffset, chars))| == chars
    ensures var b := data[Mod(lineOffset + k, |data|)];
      ShownLine(LineData(data, lineOffset, chars))[k] == if 32 <= b <= 126 then b else 46
  {
    LineFollowsRing(data, lineOffset, chars);
    hide LineData;
  }

  lemma IndexFromStart(start: int, dumpBase: int, size: nat, n: nat, k: nat)
    requires size > 0
    ensures Mod(Mod(FileOffset(start, dumpBase, size) + n, size) + k, size)
         == Mod((if start >= dumpBase then start - dumpBase else 0) + n + k, size)
  {
    hide Mod, FileOffset;
    var from: nat := if start >= dumpBase then start - dumpBase else 0;
    StartsAt(start, dumpBase, size);
    var x: nat, m: nat := FileOffset(start, dumpBase, size), n + k;
    ModAdd(x + n, k, size);
    ModAdd(from, m, size);
    assert x + n + k == x + m && from + n + k == from + m;
  }

  lemma StartsAt(start: int, dumpBase: int, size: nat)
    requires size > 0
    ensures FileOffset(start, dumpBase, size) == if start >= dumpBase then Mod(start - dumpBase, size) else 0
  {}

  function Mod(a: nat, n: nat): (r: nat)
    requires n > 0
    ensures r < n
  {
    a % n
  }

  lemma ModAdd(a: nat, k: nat, n: nat)
    requires n > 0
    ensures Mod(Mod(a, n) + k, n) == Mod(a + k, n)
  {
    ModThenAdd(a, k, n);
  }

  lemma {:induction false} ModThenAdd(x: nat, k: nat, n: nat)
    requires n > 0
    ensures (x % n + k) % n == (x + k) % n
    decreases x
  {
    if x < n {
      Wrapped(x, n);
    } else {
      ModThenAdd(x - n, k, n);
      Shift(x - n, n);
      Shift(x - n + k, n);
    }
  }

  /** The loop that builds text_line a character at a time. */
  method ShowLine(lineData: seq<byte>) returns (textLine: seq<byte>)
    ensures textLine == ShownLine(lineData)
  {
    textLine := [];
    var i := 0;
    while i < |lineData|
      invariant i <= |lineData| && textLine == ShownLine(lineData[..i])
    {
      var b := lineData[i];
      textLine := textLine + [if 32 <= b <= 126 then b else 46];
      i := i + 1;
      assert lineData[..i][..i - 1] == lineData[..i - 1];
    }
    assert lineData[..i] == lineData;
  }

  /** The normal and the wrap case of one line. */
  method ReadLine(data: seq<byte>, lineOffset: nat, chars: int) returns (lineData: seq<byte>)
    requires lineOffset < |data|
    ensures lineData == LineData(data, lineOffset, chars)
  {
    var screenSize := |data|;
    if lineOffset + chars <= screenSize {
      lineData := Slice(data, lineOffset, lineOffset + chars);
    } else {
      var firstPartSize := screenSize - lineOffset;
      lineData := data[lineOffset..] + Slice(data, 0, chars - firstPartSize);
    }
  }

  /** extract_screen_memory after the file is read: the lines printed, or false where it catches the
      division by zero of an empty dump. */
  method ExtractScreen(data: seq<byte>, start: int, numLines: int, chars: int, dumpBase: int)
    returns (ok: bool, lines: seq<seq<byte>>)
    ensures ok <==> |data| > 0 || (start < dumpBase && numLines <= 0)
    ensures ok ==> |lines| == Max(0, numLines)
    ensures |data| > 0 ==> forall n: nat :: n < numLines ==>
      lines[n] == TextLine(data, FileOffset(start, dumpBase, |data|), n, chars)
  {
    hide ShownLine, LineData;
    lines := [];
    var screenSize, fileOffset := |data|, 0;
    if start >= dumpBase {
      if screenSize == 0 { return false, []; }
      fileOffset := (start - dumpBase) % screenSize;
    }
    var line := 0;
    while line < numLines
      invariant line == |lines| <= Max(0, numLines) && (line > 0 ==> screenSize > 0)
      invariant forall n: nat :: n < line ==> lines[n] == TextLine(data, fileOffset, n, chars)
    {
      if screenSize == 0 { return false, []; }
      var lineOffset := (fileOffset + line * chars) % screenSize;
      var lineData := ReadLine(data, lineOffset, chars);
      var textLine := ShowLine(lineData);
      lines := lines + [textLine];
      line := line + 1;
    }
    ok := true;
  }
}
