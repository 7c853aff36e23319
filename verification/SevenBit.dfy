/** decode_edit_tf_payload: 1000 seven-bit values unpacked from bytes through one growing integer. */
module SevenBit {
  import opened Bytes

  const TOTAL := 1000
  const PACKED := 875

  // --------------------------------------------------------------- bit strings

  function Pow2(n: nat): (p: nat)
    ensures p > 0
  {
    if n == 0 then 1 else 2 * Pow2(n - 1)
  }

  /** Bit k of a string of w-bit digits, most significant bit of each digit first. */
  function Bit(s: seq<nat>, w: nat, k: nat): nat
    requires w > 0 && k / w < |s|
  {
    s[k / w] / Pow2(w - 1 - k % w) % 2
  }

  /** The n bits from `from`, read as a number. */
  function Value(s: seq<nat>, w: nat, from: nat, n: nat): nat
    requires w > 0 && from + n <= w * |s|
  {
    if n == 0 then 0
    else
      BitInRange(s, w, from + n - 1);
      2 * Value(s, w, from, n - 1) + Bit(s, w, from + n - 1)
  }

  predicate Digits(s: seq<nat>, w: nat) {
    forall i :: 0 <= i < |s| ==> s[i] < Pow2(w)
  }

  /** The first `count` v-bit digits of the bit string. */
  function Regroup(s: seq<nat>, w: nat, v: nat, count: nat): (r: seq<nat>)
    requires w > 0 && v * count <= w * |s|
    ensures |r| == count
  {
    seq(count, i requires 0 <= i < count => (DigitInRange(v, i, count); Value(s, w, v * i, v)))
  }

  // --------------------------------------------------------------- arithmetic

  lemma BitInRange(s: seq<nat>, w: nat, k: nat)
    requires w > 0 && k < w * |s|
    ensures k / w < |s|
  {
    assert k == (k / w) * w + k % w;
    Monotone(|s|, k / w, w);
  }

  lemma DigitInRange(v: nat, i: nat, count: nat)
    requires i < count
    ensures v * i + v <= v * count
  {
    assert v * (i + 1) <= v * count;
  }

  // ------------------------------------------------------------ bits of values

  lemma {:induction false} ValueBound(s: seq<nat>, w: nat, from: nat, n: nat)
    requires w > 0 && from + n <= w * |s|
    ensures Value(s, w, from, n) < Pow2(n)
  {
    if n == 0 {
    } else {
      ValueBound(s, w, from, n - 1);
    }
  }

  lemma Doubled(a: nat, p: nat, b: nat)
    ensures 2 * (a * p + b) == a * (2 * p) + 2 * b
  {}

  /** Reading n + m bits is reading n and then m. */
  lemma {:induction false} ValueSplit(s: seq<nat>, w: nat, from: nat, n: nat, m: nat)
    requires w > 0 && from + n + m <= w * |s|
    ensures Value(s, w, from, n + m) == Value(s, w, from, n) * Pow2(m) + Value(s, w, from + n, m)
  {
    if m == 0 {
    } else {
      ValueSplit(s, w, from, n, m - 1);
      BitInRange(s, w, from + n + m - 1);
      var a, p, b := Value(s, w, from, n), Pow2(m - 1), Value(s, w, from + n, m - 1);
      Doubled(a, p, b);
      assert from + (n + m) - 1 == (from + n) + m - 1;
    }
  }

  /** Shifting out the last m bits, and keeping only them. */
  lemma ValueShift(s: seq<nat>, w: nat, from: nat, n: nat, m: nat)
    requires w > 0 && from + n + m <= w * |s|
    ensures Value(s, w, from, n + m) / Pow2(m) == Value(s, w, from, n)
    ensures Value(s, w, from, n + m) % Pow2(m) == Value(s, w, from + n, m)
  {
    ValueSplit(s, w, from, n, m);
    ValueBound(s, w, from + n, m);
    DivMod(Value(s, w, from, n), Pow2(m), Value(s, w, from + n, m));
  }

  /** Bit t of an n-bit value is bit from + t of the string. */
  lemma BitOfValue(s: seq<nat>, w: nat, from: nat, n: nat, t: nat)
    requires w > 0 && from + n <= w * |s| && t < n
    ensures (from + t) / w < |s|
    ensures Value(s, w, from, n) / Pow2(n - 1 - t) % 2 == Bit(s, w, from + t)
  {
    BitInRange(s, w, from + t);
    ValueShift(s, w, from, t + 1, n - 1 - t);
    LastBit(s, w, from, t);
    hide Pow2, Bit, Value;
    assert n - 1 - t + (t + 1) == n;
  }

  lemma LastBit(s: seq<nat>, w: nat, from: nat, t: nat)
    requires w > 0 && from + t + 1 <= w * |s|
    ensures (from + t) / w < |s|
    ensures Value(s, w, from, t + 1) % 2 == Bit(s, w, from + t)
  {
    BitInRange(s, w, from + t);
    assert Value(s, w, from, t + 1) == 2 * Value(s, w, from, t) + Bit(s, w, from + t);
  }

  /** The first n bits of digit i are its top n bits. */
  lemma {:induction false} ValueOfDigit(s: seq<nat>, w: nat, i: nat, n: nat)
    requires w > 0 && i < |s| && n <= w && s[i] < Pow2(w)
    ensures w * i + n <= w * |s|
    ensures Value(s, w, w * i, n) == s[i] / Pow2(w - n)
    decreases n
  {
    DigitInRange(w, i, |s|);
    if n == 0 {
      DivMod(0, Pow2(w), s[i]);
    } else {
      ValueOfDigit(s, w, i, n - 1);
      DivMod(i, w, n - 1);
      assert (w * i + n - 1) / w == i && (w * i + n - 1) % w == n - 1;
      var p := Pow2(w - n);
      assert Pow2(w - n + 1) == 2 * p;
      HalfOf(s[i], p);
    }
  }

  lemma HalfOf(x: nat, p: nat)
    requires p > 0
    ensures x / (2 * p) == x / p / 2
  {
    var d, m := x / p, x % p;
    var h := d / 2;
    var rest := if d % 2 == 0 then m else p + m;
    assert x == d * p + m;
    Regrouped(d, h, p);
    DivMod(h, 2 * p, rest);
  }

  lemma Regrouped(d: nat, h: nat, p: nat)
    ensures d == 2 * h ==> d * p == h * (2 * p)
    ensures d == 2 * h + 1 ==> d * p == h * (2 * p) + p
  {}

  /** Every regrouped digit has v bits. */
  lemma RegroupDigits(s: seq<nat>, w: nat, v: nat, count: nat)
    requires w > 0 && v * count <= w * |s|
    ensures Digits(Regroup(s, w, v, count), v)
  {
    var r := Regroup(s, w, v, count);
    forall i: nat | i < count
      ensures r[i] < Pow2(v)
    {
      DigitInRange(v, i, count);
      ValueBound(s, w, v * i, v);
    }
  }

  /** Regrouping keeps every bit in its place. */
  lemma RegroupBit(s: seq<nat>, w: nat, v: nat, count: nat, k: nat)
    requires w > 0 && v > 0 && v * count <= w * |s| && k < v * count
    ensures k / w < |s| && k / v < count
    ensures Bit(Regroup(s, w, v, count), v, k) == Bit(s, w, k)
  {
    var r := Regroup(s, w, v, count);
    BitInRange(s, w, k);
    BitInRange(r, v, k);
    var i, t := k / v, k % v;
    assert k == v * i + t;
    DigitInRange(v, i, count);
    BitOfValue(s, w, v * i, v, t);
  }

  lemma {:induction false} SameBitsSameValue(s: seq<nat>, w: nat, r: seq<nat>, v: nat, from: nat, n: nat)
    requires w > 0 && v > 0 && from + n <= w * |s| && from + n <= v * |r|
    requires forall k: nat :: from <= k < from + n ==> k / w < |s| && k / v < |r| && Bit(s, w, k) == Bit(r, v, k)
    ensures Value(s, w, from, n) == Value(r, v, from, n)
  {
    if n == 0 {
    } else {
      SameBitsSameValue(s, w, r, v, from, n - 1);
    }
  }

  /** Regrouping there and back restores every digit that was wholly covered. */
  lemma RegroupBack(s: seq<nat>, w: nat, v: nat, count: nat, back: nat)
    requires w > 0 && v > 0 && v * count <= w * |s| && w * back <= v * count && back <= |s| && Digits(s, w)
    ensures Regroup(Regroup(s, w, v, count), v, w, back) == s[..back]
  {
    var r := Regroup(s, w, v, count);
    forall i: nat | i < back
      ensures Regroup(r, v, w, back)[i] == s[i]
    {
      DigitInRange(w, i, back);
      DigitInRange(w, i, |s|);
      forall k: nat | w * i <= k < w * i + w
        ensures k / w < |s| && k / v < |r| && Bit(s, w, k) == Bit(r, v, k)
      {
        RegroupBit(s, w, v, count, k);
      }
      SameBitsSameValue(s, w, r, v, w * i, w);
      ValueOfDigit(s, w, i, w);
      DivMod(s[i], 1, 0);
    }
  }

  // -------------------------------------------------------------- the unpacker

  /** 1000 seven-bit values from the first 7000 bits. */
  function Unpack(packed: seq<nat>): seq<nat>
    requires |packed| >= PACKED
  {
    Regroup(packed, 8, 7, TOTAL)
  }

  /** The packing edit.tf uses: 1000 values into 875 bytes. */
  function Pack(values: seq<nat>): seq<nat>
    requires |values| == TOTAL
  {
    Regroup(values, 7, 8, PACKED)
  }

  /** Bit t of value i is bit 7i + t of the byte string, counting from the most significant bit of each. */
  lemma ValueBits(packed: seq<nat>, i: nat, t: nat)
    requires |packed| >= PACKED && i < 1000 && t < 7
    ensures (7 * i + t) / 8 < |packed|
    ensures Unpack(packed)[i] / Pow2(6 - t) % 2 == packed[(7 * i + t) / 8] / Pow2(7 - (7 * i + t) % 8) % 2
  {
    BitOfValue(packed, 8, 7 * i, 7, t);
  }

  lemma PrefixDecides(packed: seq<nat>, rest: seq<nat>)
    requires |packed| == PACKED
    ensures Unpack(packed + rest) == Unpack(packed)
  {
    forall i: nat | i < TOTAL
      ensures Unpack(packed + rest)[i] == Unpack(packed)[i]
    {
      forall k: nat | 7 * i <= k < 7 * i + 7
        ensures k / 8 < |packed| && Bit(packed + rest, 8, k) == Bit(packed, 8, k)
      {}
      SameBitsSameValue(packed + rest, 8, packed, 8, 7 * i, 7);
    }
  }

  /** Unpacking inverts packing, and ignores whatever follows the 875th byte. */
  lemma UnpackInvertsPack(values: seq<nat>, rest: seq<nat>)
    requires |values| == TOTAL && Digits(values, 7)
    ensures Unpack(Pack(values) + rest) == values
  {
    PrefixDecides(Pack(values), rest);
    RegroupBack(values, 7, 8, PACKED, TOTAL);
    assert values[..TOTAL] == values;
  }

  /** Packing inverts unpacking on the 875 bytes that matter. */
  lemma PackInvertsUnpack(packed: seq<nat>)
    requires |packed| >= PACKED && Digits(packed, 8)
    ensures Pack(Unpack(packed)) == packed[..PACKED]
  {
    RegroupBack(packed, 8, 7, TOTAL, PACKED);
  }

  lemma PowersUsed()
    ensures Pow2(0) == 1 && Pow2(7) == 128 && Pow2(8) == 256
  {
    assert Pow2(3) == 8;
    assert Pow2(5) == 32;
  }

  lemma {:induction false} NextByte(packed: seq<byte>, j: nat)
    requires j < |packed|
    ensures Value(packed, 8, 0, 8 * (j + 1)) == Value(packed, 8, 0, 8 * j) * 256 + packed[j]
  {
    PowersUsed();
    ValueSplit(packed, 8, 0, 8 * j, 8);
    ValueOfDigit(packed, 8, j, 8);
  }

  lemma {:induction false} NextValue(packed: seq<byte>, j: nat, m: nat, count: nat)
    requires j <= |packed| && 7 * (m + 1) + count == 8 * j
    ensures Value(packed, 8, 0, 8 * j) / Pow2(count) % 128 == Value(packed, 8, 7 * m, 7)
  {
    PowersUsed();
    ValueShift(packed, 8, 0, 7 * (m + 1), count);
    ValueShift(packed, 8, 0, 7 * m, 7);
  }

  lemma RegroupNext(packed: seq<byte>, m: nat)
    requires 7 * (m + 1) <= 8 * |packed|
    ensures Regroup(packed, 8, 7, m + 1) == Regroup(packed, 8, 7, m) + [Value(packed, 8, 7 * m, 7)]
  {}

  /** decode_edit_tf_payload after the base64 step; Err carries the count in the ValueError. */
  method DecodePayload(packed: seq<byte>) returns (r: Result<seq<nat>, nat>)
    ensures |packed| >= 875 ==> r == Ok(Unpack(packed)) && |r.value| == 1000 && forall v :: v in r.value ==> v < 128
    ensures |packed| < 875 ==> r == Err(8 * |packed| / 7)
  {
    hide Value, Regroup;
    var values: seq<nat>, bitBuffer: nat, bitCount: nat, j := [], 0, 0, 0;
    DecodeStart(packed);
    while j < |packed|
      invariant j <= |packed| && |values| <= TOTAL
      invariant 7 * |values| + bitCount == 8 * j && (|values| < TOTAL ==> bitCount < 7)
      invariant bitBuffer == Value(packed, 8, 0, 8 * j)
      invariant values == Regroup(packed, 8, 7, |values|)
    {
      NextByte(packed, j);
      bitBuffer := bitBuffer * 256 + packed[j];
      bitCount := bitCount + 8;
      j := j + 1;
      while bitCount >= 7 && |values| < TOTAL
        invariant |values| <= TOTAL && 7 * |values| + bitCount == 8 * j
        invariant values == Regroup(packed, 8, 7, |values|)
        decreases bitCount
      {
        bitCount := bitCount - 7;
        NextValue(packed, j, |values|, bitCount);
        RegroupNext(packed, |values|);
        var value := bitBuffer / Pow2(bitCount) % 128;
        values := values + [value];
      }
    }
    r := if |values| != TOTAL then Err(|values|) else Ok(values);
    if |values| == TOTAL {
      RegroupDigits(packed, 8, 7, TOTAL);
      PowersUsed();
    }
  }

  lemma DecodeStart(packed: seq<byte>)
    ensures Value(packed, 8, 0, 0) == 0 && Regroup(packed, 8, 7, 0) == []
  {}
}
