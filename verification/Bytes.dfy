/** Bytes, 16-bit words held as two bytes, and small results shared by the other modules. */
module Bytes {
  type byte = b: int | 0 <= b < 256

  datatype Option<+T> = None | Some(value: T) {
    function GetOr(default: T): T {
      match this case None => default case Some(v) => v
    }
  }

  datatype Result<+T, +E> = Ok(value: T) | Err(error: E)

  function Min(a: int, b: int): int {
    if a <= b then a else b
  }

  function Max(a: int, b: int): int {
    if a >= b then a else b
  }

  function Zeros(n: nat): (s: seq<byte>)
    ensures |s| == n
  {
    seq(n, _ => 0)
  }

  /** ADC on the 6502: the sum byte and the carry out. */
  function Adc(a: byte, b: byte, carry: int): (r: (byte, int))
    requires 0 <= carry <= 1
    ensures 0 <= r.1 <= 1 && r.0 + 256 * r.1 == a + b + carry
  {
    if a + b + carry < 256 then (a + b + carry, 0) else (a + b + carry - 256, 1)
  }

  /** A zero-page pair: low byte first, as the 6502 keeps it. */
  datatype Word = Word(lo: byte, hi: byte) {
    function Value(): (n: nat)
      ensures n < 0x1_0000
    {
      lo + 256 * hi
    }

    /** INC lo : BNE ok : INC hi */
    function Inc(): (w: Word)
      ensures Value() == 0xFFFF ==> w.Value() == 0
      ensures Value() != 0xFFFF ==> w.Value() == Value() + 1
    {
      if lo < 255 then Word(lo + 1, hi)
      else Word(0, if hi < 255 then hi + 1 else 0)
    }

    /** SEC : LDA lo : SBC #1 : STA lo : LDA hi : SBC #0 : STA hi */
    function Dec(): (w: Word)
      ensures Value() == 0 ==> w.Value() == 0xFFFF
      ensures Value() != 0 ==> w.Value() == Value() - 1
    {
      if lo > 0 then Word(lo - 1, hi)
      else Word(255, if hi > 0 then hi - 1 else 255)
    }

    /** CLC : two ADCs, low byte first */
    function Add(other: Word): (w: Word)
      ensures Value() + other.Value() < 0x1_0000 ==> w.Value() == Value() + other.Value()
      ensures Value() + other.Value() >= 0x1_0000 ==> w.Value() == Value() + other.Value() - 0x1_0000
    {
      var l, carry := Adc(lo, other.lo, 0).0, Adc(lo, other.lo, 0).1;
      Word(l, Adc(hi, other.hi, carry).0)
    }

    /** LDA lo : ORA hi : BEQ */
    predicate IsZero()
      ensures IsZero() <==> Value() == 0
    {
      lo == 0 && hi == 0
    }
  }

  lemma WordsEqual(a: Word, b: Word)
    ensures a == b <==> a.Value() == b.Value()
  {}

  // ---------------------------------------------------------------- overlays

  /** A byte string read as if it went on with zeros for ever. */
  function ByteAt(s: seq<byte>, i: nat): byte {
    if i < |s| then s[i] else 0
  }

  /** A write into a bytearray: zeros are added up to the write's end, then the bytes go in. */
  function Overlay(s: seq<byte>, offset: nat, data: seq<byte>): seq<byte> {
    var end := offset + |data|;
    var grown := if end > |s| then s + Zeros(end - |s|) else s;
    grown[..offset] + data + grown[end..]
  }

  /** It changes exactly the bytes it covers. */
  lemma OverlayByte(s: seq<byte>, offset: nat, data: seq<byte>, i: nat)
    ensures |Overlay(s, offset, data)| == Max(|s|, offset + |data|)
    ensures ByteAt(Overlay(s, offset, data), i) ==
      if offset <= i < offset + |data| then data[i - offset] else ByteAt(s, i)
  {
    var end, r := offset + |data|, Overlay(s, offset, data);
    var grown := if end > |s| then s + Zeros(end - |s|) else s;
    assert |r| == |grown|;
    if i < |r| {
      if i < offset {
        assert r[i] == grown[i];
      } else if i >= end {
        assert r[i] == grown[end..][i - end] == grown[i];
      }
    }
  }

  // Division, for divisors the solver does not know.

  lemma {:induction false} Monotone(a: nat, b: nat, p: nat)
    ensures a <= b ==> a * p <= b * p
    ensures a < b ==> a * p + p <= b * p
  {
    if a < b {
      Monotone(a, b - 1, p);
      assert b * p == (b - 1) * p + p;
    }
  }

  lemma DivMod(q: nat, p: nat, r: nat)
    requires r < p
    ensures (q * p + r) / p == q && (q * p + r) % p == r
  {
    var x := q * p + r;
    var d, m := x / p, x % p;
    assert x == d * p + m;
    Monotone(q, d, p);
    Monotone(d, q, p);
  }
}
