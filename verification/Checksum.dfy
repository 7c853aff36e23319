/** The FujiBus end-around-carry checksum: the BASIC loop, the 6502 loop, packets built and checked. */
module Checksum {
  import opened Bytes

  /** ((chk% + b) DIV 256) + ((chk% + b) AND 255) */
  function Carry(chk: byte, b: byte): (r: byte)
  {
    if chk + b < 256 then chk + b else chk + b - 255
  }

  function Fold(s: seq<byte>): byte {
    if s == [] then 0 else Carry(Fold(s[..|s| - 1]), s[|s| - 1])
  }

  function Sum(s: seq<byte>): nat {
    if s == [] then 0 else Sum(s[..|s| - 1]) + s[|s| - 1]
  }

  /** The checksum depends on the sum alone. */
  function OfSum(sum: nat): (r: byte) {
    if sum == 0 then 0 else (sum - 1) % 255 + 1
  }

  lemma Mod255(a: nat, b: nat, q: int)
    requires 0 <= b < 255 && a == q * 255 + b
    ensures a % 255 == b
  {
    var d := a / 255;
    assert a == d * 255 + a % 255;
    assert (d - q) * 255 == b - a % 255;
    assert d == q;
  }

  lemma CarryOfSum(sum: nat, b: byte)
    ensures Carry(OfSum(sum), b) == OfSum(sum + b)
  {
    if sum == 0 {
      if b > 0 { Mod255(b - 1, b - 1, 0); }
    } else {
      var x, q := OfSum(sum), (sum - 1) / 255;
      assert sum - 1 == q * 255 + (x - 1);
      if x + b < 256 {
        Mod255(sum + b - 1, x + b - 1, q);
      } else {
        Mod255(sum + b - 1, x + b - 256, q + 1);
      }
    }
  }

  /** Closed form: 0 when every byte is 0, otherwise ((sum - 1) mod 255) + 1. */
  lemma {:induction false} FoldClosedForm(s: seq<byte>)
    ensures Fold(s) == OfSum(Sum(s))
    ensures Sum(s) == 0 <==> forall i :: 0 <= i < |s| ==> s[i] == 0
  {
    if s == [] {
    } else {
      var front := s[..|s| - 1];
      FoldClosedForm(front);
      CarryOfSum(Sum(front), s[|s| - 1]);
      assert forall i :: 0 <= i < |front| ==> front[i] == s[i];
    }
  }

  // ------------------------------------------------------------ the two loops

  /** FNchecksum in BASIC. A FOR loop runs its body once even when its range is empty, so a zero
      length still adds the first byte. */
  method FnChecksum(buf: array<byte>, len: nat) returns (chk: byte)
    requires 1 <= buf.Length && len <= buf.Length
    ensures chk == Fold(buf[..Max(1, len)])
  {
    chk := Carry(0, buf[0]);
    var i := 1;
    assert buf[..1][..0] == [];
    while i <= len - 1
      invariant 1 <= i <= Max(1, len)
      invariant chk == Fold(buf[..i])
    {
      chk := Carry(chk, buf[i]);
      i := i + 1;
      assert buf[..i][..i - 1] == buf[..i - 1];
    }
  }

  /** calc_checksum on the 6502: add with carry, add the carry back, count two bytes down. */
  method CalcChecksum(buf: array<byte>, length: Word) returns (res: byte)
    requires length.Value() <= buf.Length
    ensures res == Fold(buf[..length.Value()])
  {
    res := 0;
    var lo: int, hi: int, src := length.lo, length.hi, 0;
    if lo == 0 && hi == 0 { return; }
    var going := true;
    while going
      invariant 0 <= lo < 256 && 0 <= hi < 256 && 0 <= src <= length.Value()
      invariant lo + 256 * hi == length.Value() - src
      invariant going <==> src < length.Value()
      invariant res == Fold(buf[..src])
      decreases length.Value() - src
    {
      var sum := Adc(buf[src], res, 0);               // LDA (src),Y : CLC : ADC res
      res := Adc(sum.0, 0, sum.1).0;                  // ADC #0
      src := src + 1;
      assert buf[..src][..src - 1] == buf[..src - 1];
      if lo == 0 { hi := if hi == 0 then 255 else hi - 1; }
      lo := if lo == 0 then 255 else lo - 1;
      going := lo != 0 || hi != 0;
    }
  }

  /** Both loops give the same answer except on an empty range that starts with a nonzero byte. */
  lemma LoopsAgree(buf: seq<byte>, len: nat)
    requires 1 <= |buf| && len <= |buf|
    ensures Fold(buf[..Max(1, len)]) == Fold(buf[..len]) <==> len > 0 || buf[0] == 0
  {
    if len == 0 {
      assert buf[..1][..0] == [] && buf[..1][0] == buf[0];
    }
  }

  /** A 7 that lies where a packet would start: BASIC sums it for a length of 0, the 6502 does not. */
  lemma LoopsDiffer()
    ensures var buf: seq<byte> := [7]; Fold(buf[..Max(1, 0)]) == 7 && Fold(buf[..0]) == 0
  {
    var buf: seq<byte> := [7];
    assert buf[..1] == [7] && buf[..1][..0] == [] && buf[..0] == [];
  }

  // ------------------------------------------------------------- corruption

  lemma {:induction false} SumUpdate(s: seq<byte>, i: nat, v: byte)
    requires i < |s|
    ensures Sum(s[i := v]) == Sum(s) - s[i] + v
  {
    var last := |s| - 1;
    if i < last {
      SumUpdate(s[..last], i, v);
      assert s[i := v][..last] == s[..last][i := v];
    } else {
      assert s[i := v][..last] == s[..last];
    }
  }

  lemma SumAtLeast(s: seq<byte>, i: nat)
    requires i < |s|
    ensures s[i] <= Sum(s)
    ensures Sum(s) == s[i] <==> forall k :: 0 <= k < |s| && k != i ==> s[k] == 0
  {
    SumUpdate(s, i, 0);
    FoldClosedForm(s[i := 0]);
    if forall k :: 0 <= k < |s| && k != i ==> s[k] == 0 {
      assert Sum(s[i := 0]) == 0;
    }
    if Sum(s) == s[i] {
      forall k | 0 <= k < |s| && k != i
        ensures s[k] == 0
      {
        assert s[i := 0][k] == 0;
      }
    }
  }

  lemma SameResidue(a: nat, b: nat)
    ensures a % 255 == b % 255 <==> (a - b) % 255 == 0
  {
    assert a == 255 * (a / 255) + a % 255 && b == 255 * (b / 255) + b % 255;
    if a % 255 == b % 255 {
      assert a - b == 255 * (a / 255 - b / 255);
    }
    if (a - b) % 255 == 0 {
      assert a % 255 - b % 255 == 255 * ((a - b) / 255 - a / 255 + b / 255);
    }
  }

  /** Two sums give the same checksum exactly when they agree modulo 255 and both or neither are 0. */
  lemma SameOfSum(a: nat, b: nat)
    ensures OfSum(a) == OfSum(b) <==> (a - b) % 255 == 0 && (a == 0 <==> b == 0)
  {
    if a > 0 && b > 0 { SameResidue(a - 1, b - 1); }
  }

  /** One changed byte goes unnoticed exactly when it swaps 0 and 255 and some other byte is nonzero. */
  lemma ChangeUnnoticed(s: seq<byte>, i: nat, v: byte)
    requires i < |s| && v != s[i]
    ensures Fold(s[i := v]) == Fold(s) <==>
            ((s[i] == 0 && v == 255) || (s[i] == 255 && v == 0)) && exists k :: 0 <= k < |s| && k != i && s[k] != 0
  {
    var t := s[i := v];
    FoldClosedForm(s);
    FoldClosedForm(t);
    hide Fold, Sum, OfSum;
    SumUpdate(s, i, v);
    SumAtLeast(s, i);
    SameOfSum(Sum(t), Sum(s));
  }

  // ---------------------------------------------------------------- packets

  /** FNget_u16le */
  function U16(s: seq<byte>, offset: nat): nat
    requires offset + 1 < |s|
  {
    s[offset] + 256 * (s[offset + 1] as int)
  }

  function Header(device: byte, command: byte, total: nat, chk: byte): (h: seq<byte>)
    requires total < 0x1_0000
    ensures |h| == 6
  {
    [device, command, total % 256, total / 256, chk, 0]
  }

  function Packet(device: byte, command: byte, payload: seq<byte>): (p: seq<byte>)
    requires 6 + |payload| < 0x1_0000
    ensures |p| == 6 + |payload|
  {
    var total := 6 + |payload|;
    Header(device, command, total, Fold(Header(device, command, total, 0) + payload)) + payload
  }

  /** FNbuild_fujibus_packet: the payload is already in place from byte 6. */
  method BuildFujibusPacket(tx: array<byte>, device: byte, command: byte, payloadLen: nat) returns (total: nat)
    requires 6 + payloadLen <= tx.Length && 6 + payloadLen < 0x1_0000
    modifies tx
    ensures total == 6 + payloadLen
    ensures tx[..total] == Packet(device, command, old(tx[6..6 + payloadLen]))
    ensures tx[total..] == old(tx[total..])
  {
    hide Fold;
    total := 6 + payloadLen;
    ghost var payload := tx[6..total];
    tx[0], tx[1] := device, command;
    tx[2], tx[3] := total % 256, total / 256 % 256;
    tx[4], tx[5] := 0, 0;
    assert tx[..total] == Header(device, command, total, 0) + payload;
    var chk := FnChecksum(tx, total);
    tx[4] := chk;
    assert tx[..total] == Packet(device, command, payload);
  }

  /** The bytes FNpacket_checksum_ok sums: as many as the length field says, with the checksum zeroed. */
  function Summed(rx: seq<byte>): seq<byte>
    requires |rx| >= 6 && U16(rx, 2) <= |rx|
  {
    rx[4 := 0][..Max(1, U16(rx, 2))]
  }

  /** What FNpacket_checksum_ok compares, as a property of the bytes in memory from the packet's start. */
  predicate ChecksumOk(rx: seq<byte>)
    requires |rx| >= 6 && U16(rx, 2) <= |rx|
  {
    Fold(Summed(rx)) == rx[4]
  }

  /** FNpacket_checksum_ok zeroes the checksum byte, sums, and puts it back. */
  method PacketChecksumOk(rx: array<byte>) returns (ok: bool)
    requires rx.Length >= 6 && U16(rx[..], 2) <= rx.Length
    modifies rx
    ensures rx[..] == old(rx[..])
    ensures ok == ChecksumOk(old(rx[..]))
  {
    ghost var was := rx[..];
    var pktLen, expected := rx[2] + 256 * (rx[3] as int), rx[4];
    rx[4] := 0;
    assert rx[..] == was[4 := 0];
    var actual := FnChecksum(rx, pktLen);
    assert rx[..Max(1, pktLen)] == was[4 := 0][..Max(1, pktLen)];
    rx[4] := expected;
    assert rx[..] == was;
    ok := actual == expected;
  }

  /** Every built packet passes the receiver's check, whatever follows it in memory. */
  lemma BuiltPacketPasses(device: byte, command: byte, payload: seq<byte>, after: seq<byte>)
    requires 6 + |payload| < 0x1_0000
    ensures U16(Packet(device, command, payload) + after, 2) == 6 + |payload|
    ensures ChecksumOk(Packet(device, command, payload) + after)
  {
    var total := 6 + |payload|;
    var p := Packet(device, command, payload);
    assert (p + after)[4 := 0][..total] == Header(device, command, total, 0) + payload;
  }

  lemma {:induction false} SumSplit(s: seq<byte>, k: nat)
    requires k <= |s|
    ensures Sum(s) == Sum(s[..k]) + Sum(s[k..])
  {
    if k == |s| {
      assert s[..k] == s && s[k..] == [];
    } else {
      var n := |s| - 1;
      SumSplit(s[..n], k);
      assert s[..n][..k] == s[..k] && s[..n][k..] == s[k..][..n - k];
    }
  }

  /** How much more the first `to` bytes come to than the first `from` did, once byte i has become v. */
  function Gained(s: seq<byte>, i: nat, v: byte, from: nat, to: nat): int
    requires i < |s| && from <= |s| && to <= |s|
  {
    (if i < to then v - s[i] else 0) + (if from <= to then Sum(s[from..to]) as int else -(Sum(s[to..from]) as int))
  }

  lemma SumGained(s: seq<byte>, i: nat, v: byte, from: nat, to: nat)
    requires i < |s| && from <= |s| && to <= |s|
    ensures Sum(s[i := v][..to]) == Sum(s[..from]) + Gained(s, i, v, from, to)
  {
    if i < to {
      SumUpdate(s[..to], i, v);
      assert s[i := v][..to] == s[..to][i := v];
    } else {
      assert s[i := v][..to] == s[..to];
    }
    var lo, hi := Min(from, to), Max(from, to);
    SumSplit(s[..hi], lo);
    assert s[..hi][..lo] == s[..lo] && s[..hi][lo..] == s[lo..hi];
  }

  /** A changed length byte is missed when the bytes it brings in or leaves out, and its own change, come
      to a multiple of 255, and the bytes now summed are not all zero. */
  ghost predicate LengthChangeMissed(mem: seq<byte>, i: nat, v: byte)
    requires |mem| >= 6 && (i == 2 || i == 3) && U16(mem, 2) <= |mem| && U16(mem[i := v], 2) <= |mem|
  {
    var altered := mem[i := v];
    var from, to := Max(1, U16(mem, 2)), Max(1, U16(altered, 2));
    && Gained(mem[4 := 0], i, v, from, to) % 255 == 0
    && exists k :: 0 <= k < to && k != 4 && altered[k] != 0
  }

  lemma LengthCorruption(mem: seq<byte>, i: nat, v: byte)
    requires |mem| >= 6 && (i == 2 || i == 3) && 4 <= U16(mem, 2) <= |mem| && U16(mem[i := v], 2) <= |mem|
    requires ChecksumOk(mem)
    ensures ChecksumOk(mem[i := v]) <==> LengthChangeMissed(mem, i, v)
  {
    hide Fold, Sum, OfSum, Gained;
    var altered, from, to := mem[i := v], Max(1, U16(mem, 2)), Max(1, U16(mem[i := v], 2));
    var before, now := Summed(mem), Summed(altered);
    assert altered[4 := 0] == mem[4 := 0][i := v];
    SumGained(mem[4 := 0], i, v, from, to);
    FoldClosedForm(before);
    FoldClosedForm(now);
    SameOfSum(Sum(now), Sum(before));
    assert before[2] == mem[2] && before[3] == mem[3];
    if k :| 0 <= k < to && k != 4 && altered[k] != 0 { assert now[k] != 0; }
  }

  /** A good packet in memory with any one byte changed still passes exactly in these cases: outside the
      length and the checksum, 0 and 255 were swapped and another summed byte is nonzero; in the length,
      what the new length brings in or leaves out makes up for the change. */
  lemma CorruptionDetected(packet: seq<byte>, after: seq<byte>, i: nat, v: byte)
    requires |packet| >= 6 && U16(packet, 2) == |packet| && ChecksumOk(packet)
    requires i < |packet| && v != packet[i] && U16((packet + after)[i := v], 2) <= |packet + after|
    ensures ChecksumOk((packet + after)[i := v]) <==>
      if i == 2 || i == 3 then LengthChangeMissed(packet + after, i, v)
      else
        && i != 4 && ((packet[i] == 0 && v == 255) || (packet[i] == 255 && v == 0))
        && exists k :: 0 <= k < |packet| && k != i && k != 4 && packet[k] != 0
  {
    hide Fold, LengthChangeMissed;
    var mem, summed := packet + after, packet[4 := 0];
    assert Summed(packet) == summed == Summed(mem);
    if i == 2 || i == 3 {
      LengthCorruption(mem, i, v);
    } else if i == 4 {
      assert Summed(mem[i := v]) == summed;
    } else {
      assert Summed(mem[i := v]) == summed[i := v];
      ChangeUnnoticed(summed, i, v);
      OtherSummedByte(packet, summed, i);
    }
  }

  /** A length of 6 turned into 7 in front of a stale 254 is not noticed. */
  lemma LengthChangeSlipsThrough()
    ensures var mem: seq<byte> := [0x70, 1, 6, 0, 119, 0, 254];
      ChecksumOk(mem) && ChecksumOk(mem[2 := 7]) && U16(mem, 2) == 6
  {
    var mem: seq<byte> := [0x70, 1, 6, 0, 119, 0, 254];
    var first: seq<byte> := [0x70, 1, 6, 0, 0, 0];
    var second: seq<byte> := [0x70, 1, 7, 0, 0, 0, 254];
    assert Summed(mem) == first && Summed(mem[2 := 7]) == second;
    SumSix(first);
    assert second[..6] == [0x70, 1, 7, 0, 0, 0];
    SumSix(second[..6]);
    FoldClosedForm(first);
    FoldClosedForm(second);
  }

  lemma SumNext(s: seq<byte>, k: nat)
    requires k < |s|
    ensures Sum(s[..k + 1]) == Sum(s[..k]) + s[k]
  {
    assert s[..k + 1][..k] == s[..k];
  }

  lemma SumSix(s: seq<byte>)
    requires |s| == 6
    ensures Sum(s) == (s[0] as int) + s[1] + s[2] + s[3] + s[4] + s[5]
  {
    assert s[..6] == s && s[..0] == [];
    SumNext(s, 0);
    SumNext(s, 1);
    SumNext(s, 2);
    SumNext(s, 3);
    SumNext(s, 4);
    SumNext(s, 5);
  }

  lemma OtherSummedByte(packet: seq<byte>, summed: seq<byte>, i: nat)
    requires |packet| >= 6 && summed == packet[4 := 0]
    ensures (exists k :: 0 <= k < |summed| && k != i && summed[k] != 0) <==>
            (exists k :: 0 <= k < |packet| && k != i && k != 4 && packet[k] != 0)
  {
    if k :| 0 <= k < |packet| && k != i && k != 4 && packet[k] != 0 {
      assert summed[k] != 0;
    }
  }
}
