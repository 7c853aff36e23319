/** findJsonField: the 6502 search for a pattern and for the quote that closes the value after it. */
module JsonScan {
  import opened Bytes

  const QUOTE: byte := 34
  const BACKSLASH: byte := 92
  const NOT_FOUND := Word(0xFF, 0xFF)

  // --------------------------------------------------------- specification

  predicate Occurs(payload: seq<byte>, pattern: seq<byte>, p: nat) {
    p + |pattern| <= |payload| && payload[p..p + |pattern|] == pattern
  }

  predicate FirstAt(payload: seq<byte>, pattern: seq<byte>, p: nat) {
    Occurs(payload, pattern, p) && forall q: nat :: q < p ==> !Occurs(payload, pattern, q)
  }

  /** Length of the run of backslashes that ends just before i, not looking before start. */
  function Backslashes(payload: seq<byte>, start: nat, i: nat): nat
    requires i <= |payload|
    decreases i
  {
    if i <= start || payload[i - 1] != BACKSLASH then 0 else 1 + Backslashes(payload, start, i - 1)
  }

  predicate ClosesAt(payload: seq<byte>, start: nat, i: nat) {
    start <= i < |payload| && payload[i] == QUOTE && Backslashes(payload, start, i) % 2 == 0
  }

  predicate FirstCloseAt(payload: seq<byte>, start: nat, i: nat) {
    ClosesAt(payload, start, i) && forall j: nat :: j < i ==> !ClosesAt(payload, start, j)
  }

  // ---------------------------------------------------------------- methods

  /** A buffer in memory: its bytes, the address of the first one and its length, as the zero page has them.
      It may end at the very top of the address space. */
  ghost predicate InMemory(bytes: seq<byte>, address: Word, length: Word) {
    |bytes| == length.Value() && address.Value() + length.Value() <= 0x1_0000
  }

  /** The 16-bit pointer to address n: past the top byte of memory it is 0. */
  ghost predicate PointsAt(pointer: Word, n: nat) {
    pointer.Value() == if n == 0x1_0000 then 0 else n
  }

  lemma NextAddress(pointer: Word, n: nat)
    requires PointsAt(pointer, n) && n < 0x1_0000
    ensures pointer.Value() == n && PointsAt(pointer.Inc(), n + 1)
  {}

  lemma AtStart(address: Word)
    ensures PointsAt(address, address.Value())
  {}

  /** LDY #0 : LDA (pointer),Y — a read outside the buffer would not verify. */
  function Peek(bytes: seq<byte>, address: Word, pointer: Word): byte
    requires address.Value() <= pointer.Value() < address.Value() + |bytes|
  {
    bytes[pointer.Value() - address.Value()]
  }

  /** Two-byte compare, high byte first: is a >= b? */
  predicate AtLeast(a: Word, b: Word)
    ensures AtLeast(a, b) <==> a.Value() >= b.Value()
  {
    if a.hi != b.hi then a.hi > b.hi else a.lo >= b.lo
  }

  /** matchPattern: the carry flag, from scratch pointers &7C and &7E and the counter &8A. */
  method MatchPattern(payload: seq<byte>, payloadAddr: Word, at: Word, ghost start: nat,
                      pattern: seq<byte>, patternAddr: Word, patternLen: Word)
    returns (carry: bool)
    requires InMemory(pattern, patternAddr, patternLen) && payloadAddr.Value() + |payload| <= 0x1_0000
    requires start + |pattern| <= |payload| && PointsAt(at, payloadAddr.Value() + start)
    ensures carry <==> Occurs(payload, pattern, start)
  {
    hide Word.Value, Word.Inc, Word.Dec, Word.IsZero, PointsAt;
    var p, q, left := at, patternAddr, patternLen;
    ghost var k: nat := 0;
    AtStart(patternAddr);
    while !left.IsZero()
      invariant 0 <= k <= |pattern| && left.Value() == |pattern| - k
      invariant PointsAt(p, payloadAddr.Value() + start + k) && PointsAt(q, patternAddr.Value() + k)
      invariant payload[start..start + k] == pattern[..k]
      decreases |pattern| - k
    {
      NextAddress(p, payloadAddr.Value() + start + k);
      NextAddress(q, patternAddr.Value() + k);
      if Peek(payload, payloadAddr, p) != Peek(pattern, patternAddr, q) {
        assert payload[start..start + |pattern|][k] != pattern[k];
        return false;
      }
      p, q, left, k := p.Inc(), q.Inc(), left.Dec(), k + 1;
    }
    carry := true;
  }

  /** searchLoop: pointer &74, index &76 and remaining &78 at the first match, if there is one. */
  method Search(payload: seq<byte>, payloadAddr: Word, payloadLen: Word,
                pattern: seq<byte>, patternAddr: Word, patternLen: Word)
    returns (found: bool, pointer: Word, index: Word, remaining: Word)
    requires InMemory(payload, payloadAddr, payloadLen) && InMemory(pattern, patternAddr, patternLen)
    ensures found ==> FirstAt(payload, pattern, index.Value())
    ensures found ==> PointsAt(pointer, payloadAddr.Value() + index.Value())
    ensures found ==> remaining.Value() == |payload| - index.Value()
    ensures !found ==> forall p: nat :: !Occurs(payload, pattern, p)
  {
    hide Word.Value, Word.Inc, Word.Dec, Word.IsZero, AtLeast, PointsAt;
    AtStart(payloadAddr);
    found, pointer, index, remaining := false, payloadAddr, Word(0, 0), payloadLen;
    ZeroValue(index);
    while AtLeast(remaining, patternLen)
      invariant index.Value() <= |payload| && remaining.Value() == |payload| - index.Value()
      invariant PointsAt(pointer, payloadAddr.Value() + index.Value())
      invariant forall q: nat :: q < index.Value() ==> !Occurs(payload, pattern, q)
      decreases |payload| - index.Value()
    {
      found := MatchPattern(payload, payloadAddr, pointer, index.Value(), pattern, patternAddr, patternLen);
      if found { return; }
      NextAddress(pointer, payloadAddr.Value() + index.Value());
      pointer, index, remaining := pointer.Inc(), index.Inc(), remaining.Dec();   // advSrch1
    }
  }

  lemma ZeroValue(w: Word)
    requires w == Word(0, 0)
    ensures w.Value() == 0
  {}

  /** advanceByPatternLoop */
  method Skip(pointer0: Word, ghost address: nat, remaining0: Word, count: Word)
    returns (pointer: Word, remaining: Word)
    requires PointsAt(pointer0, address) && address + remaining0.Value() <= 0x1_0000
    requires count.Value() <= remaining0.Value()
    ensures PointsAt(pointer, address + count.Value())
    ensures remaining.Value() == remaining0.Value() - count.Value()
  {
    hide Word.Value, Word.Inc, Word.Dec, Word.IsZero, PointsAt;
    pointer, remaining := pointer0, remaining0;
    var left := count;
    while !left.IsZero()
      invariant left.Value() <= count.Value()
      invariant PointsAt(pointer, address + count.Value() - left.Value())
      invariant remaining.Value() == remaining0.Value() - count.Value() + left.Value()
      decreases left.Value()
    {
      NextAddress(pointer, address + count.Value() - left.Value());
      pointer, remaining, left := pointer.Inc(), remaining.Dec(), left.Dec();
    }
  }

  /** valueLoop: counts in &72 up to the closing quote; &88 is the parity of the backslash run. */
  method ScanValue(payload: seq<byte>, payloadAddr: Word, ghost start: nat, pointer0: Word, remaining0: Word)
    returns (found: bool, len: Word)
    requires payloadAddr.Value() + |payload| <= 0x1_0000 && start + remaining0.Value() == |payload|
    requires PointsAt(pointer0, payloadAddr.Value() + start)
    ensures found ==> FirstCloseAt(payload, start, start + len.Value())
    ensures !found ==> forall i: nat :: !ClosesAt(payload, start, i)
  {
    hide Word.Value, Word.Inc, Word.Dec, Word.IsZero, PointsAt;
    var pointer, remaining, parity: byte := pointer0, remaining0, 0;
    found, len := false, Word(0, 0);
    ZeroValue(len);
    while !remaining.IsZero()
      invariant start + len.Value() <= |payload|
      invariant PointsAt(pointer, payloadAddr.Value() + start + len.Value())
      invariant remaining.Value() == |payload| - start - len.Value()
      invariant parity == Backslashes(payload, start, start + len.Value()) % 2
      invariant forall j: nat :: j < start + len.Value() ==> !ClosesAt(payload, start, j)
      decreases remaining.Value()
    {
      NextAddress(pointer, payloadAddr.Value() + start + len.Value());
      var a := Peek(payload, payloadAddr, pointer);
      if a == QUOTE && parity == 0 { return true, len; }
      if a == BACKSLASH {
        parity := 1 - parity;                         // EOR #1
      } else {
        parity := 0;
      }
      len, pointer, remaining := len.Inc(), pointer.Inc(), remaining.Dec();       // incLenAndAdvance1
    }
  }

  /** findJsonField: &70/&71 and &72/&73 on return. */
  method FindJsonField(payload: seq<byte>, payloadAddr: Word, payloadLen: Word,
                       pattern: seq<byte>, patternAddr: Word, patternLen: Word)
    returns (pos: Word, len: Word)
    requires InMemory(payload, payloadAddr, payloadLen) && InMemory(pattern, patternAddr, patternLen)
    ensures (forall p: nat :: !Occurs(payload, pattern, p)) ==> pos == Word(0xFF, 0xFF) && len == Word(0, 0)
    ensures forall p: nat :: FirstAt(payload, pattern, p) ==>
      var start := p + |pattern|;
      if exists i: nat :: ClosesAt(payload, start, i)
      then pos.Value() == start && FirstCloseAt(payload, start, start + len.Value())
      else pos == Word(0xFF, 0xFF) && len == Word(0, 0)
  {
    hide Word.Value, Word.Inc, Word.Dec, Word.IsZero, Word.Add, PointsAt;
    pos, len := NOT_FOUND, Word(0, 0);
    var found, pointer, index, remaining := Search(payload, payloadAddr, payloadLen, pattern, patternAddr, patternLen);
    if !found { return; }
    pos := index.Add(patternLen);
    pointer, remaining := Skip(pointer, payloadAddr.Value() + index.Value(), remaining, patternLen);
    found, len := ScanValue(payload, payloadAddr, index.Value() + patternLen.Value(), pointer, remaining);
    if !found { pos, len := NOT_FOUND, Word(0, 0); }
  }

  // -------------------------------------------------- a JSON string is found

  /** A string body as a JSON writer escapes it. */
  function EscapeByte(b: byte): seq<byte> {
    if b == QUOTE || b == BACKSLASH then [BACKSLASH, b] else [b]
  }

  function EscapeText(text: seq<byte>): seq<byte> {
    if text == [] then [] else EscapeText(text[..|text| - 1]) + EscapeByte(text[|text| - 1])
  }

  /** No quote closes the value inside escaped text, and the text ends with an even run. */
  lemma {:induction false} EscapedTextStaysOpen(before: seq<byte>, text: seq<byte>, after: seq<byte>)
    ensures var payload, start := before + EscapeText(text) + after, |before|;
            && (forall i :: 0 <= i < start + |EscapeText(text)| ==> !ClosesAt(payload, start, i))
            && Backslashes(payload, start, start + |EscapeText(text)|) % 2 == 0
  {
    hide ClosesAt, Backslashes, EscapeByte;
    var start, whole := |before|, before + EscapeText(text) + after;
    if text == [] {
      NothingClosed(whole, start);
    } else {
      var front, b := text[..|text| - 1], text[|text| - 1];
      var mid := start + |EscapeText(front)|;
      EscapedTextStaysOpen(before, front, EscapeByte(b) + after);
      assert whole == before + EscapeText(front) + (EscapeByte(b) + after);
      OneEscapeStaysOpen(whole, start, mid, b);
    }
  }

  lemma NothingClosed(payload: seq<byte>, start: nat)
    requires start <= |payload|
    ensures forall i :: 0 <= i < start ==> !ClosesAt(payload, start, i)
    ensures Backslashes(payload, start, start) == 0
  {}

  lemma OneEscapeStaysOpen(whole: seq<byte>, start: nat, mid: nat, b: byte)
    requires start <= mid && mid + |EscapeByte(b)| <= |whole|
    requires whole[mid..mid + |EscapeByte(b)|] == EscapeByte(b)
    requires forall i :: 0 <= i < mid ==> !ClosesAt(whole, start, i)
    requires Backslashes(whole, start, mid) % 2 == 0
    ensures forall i :: 0 <= i < mid + |EscapeByte(b)| ==> !ClosesAt(whole, start, i)
    ensures Backslashes(whole, start, mid + |EscapeByte(b)|) % 2 == 0
  {
    assert whole[mid] == whole[mid..mid + |EscapeByte(b)|][0];
    if b == QUOTE || b == BACKSLASH {
      assert whole[mid + 1] == whole[mid..mid + 2][1] == b;
      assert Backslashes(whole, start, mid + 1) == 1 + Backslashes(whole, start, mid);
    }
  }

  /** The scan finds the whole of an escaped string and nothing more, whatever the string contains. */
  lemma EscapedStringFound(before: seq<byte>, pattern: seq<byte>, text: seq<byte>,
                                              after: seq<byte>, i: nat)
    ensures var payload, start := before + pattern + EscapeText(text) + [QUOTE] + after, |before| + |pattern|;
            FirstCloseAt(payload, start, i) <==> i == start + |EscapeText(text)|
  {
    var payload, start := before + pattern + EscapeText(text) + [QUOTE] + after, |before| + |pattern|;
    assert payload == (before + pattern) + EscapeText(text) + ([QUOTE] + after);
    EscapedTextStaysOpen(before + pattern, text, [QUOTE] + after);
    assert ClosesAt(payload, start, start + |EscapeText(text)|);
  }
}
