/** FujiBus packets, SLIP frames, READ replies and quoted strings with every constant written out. */
module Formats {
  import opened Bytes
  import Checksum
  import Slip
  import JsonScan
  import ChunkedRead
  import NetworkServer

  // -------------------------------------------------------------------- packets

  function ClosedForm(sum: nat): nat {
    if sum == 0 then 0 else (sum - 1) % 255 + 1
  }

  /** Device, command, length, checksum, a zero, the payload. */
  lemma PacketBytes(device: byte, command: byte, payload: seq<byte>)
    requires 6 + |payload| < 0x1_0000
    ensures var p, total := Checksum.Packet(device, command, payload), 6 + |payload|;
      && |p| == total && p[0] == device && p[1] == command && p[2] == total % 256 && p[3] == total / 256
      && p[5] == 0 && p[6..] == payload
      && p[4] == ClosedForm((device as int) + command + total % 256 + total / 256 + Checksum.Sum(payload))
  {
    var total := 6 + |payload|;
    var h := Checksum.Header(device, command, total, 0);
    Checksum.FoldClosedForm(h + payload);
    Checksum.SumSplit(h + payload, 6);
    Checksum.SumSix(h);
    hide Checksum.Fold, Checksum.Sum;
    assert (h + payload)[..6] == h && (h + payload)[6..] == payload;
  }

  /** The check: byte 4 is the closed form of the sum of the others, as many as bytes 2 and 3 say. */
  lemma CheckIs(rx: seq<byte>)
    requires |rx| >= 6 && rx[2] + 256 * (rx[3] as int) <= |rx|
    ensures Checksum.ChecksumOk(rx) <==>
      rx[4] == ClosedForm(Checksum.Sum(rx[4 := 0][..Max(1, rx[2] + 256 * (rx[3] as int))]))
  {
    Checksum.FoldClosedForm(Checksum.Summed(rx));
  }

  // --------------------------------------------------------------------- frames

  /** C0 before and after; C0 inside as DB DC, DB as DB DD, anything else as itself. */
  lemma WireForm(packet: seq<byte>, b: byte)
    ensures Slip.Frame(packet) == [0xC0] + Slip.Escape(packet) + [0xC0]
    ensures Slip.Escape([]) == []
    ensures Slip.Escape(packet + [b]) == Slip.Escape(packet) +
      if b == 0xC0 then [0xDB, 0xDC] else if b == 0xDB then [0xDB, 0xDD] else [b]
  {
    Slip.EscapeAppend(packet, b);
  }

  /** What the receiver as written makes of each packet byte. */
  lemma WrittenBytes(packet: seq<byte>, k: nat)
    requires k < |packet|
    ensures Slip.StoredAs(packet, false)[k] == packet[k]
    ensures Slip.StoredAs(packet, true)[k] ==
      if packet[k] == 0xC0 then 0xDC else if packet[k] == 0xDB then 0xDD else packet[k]
  {}

  // --------------------------------------------------------------- READ replies

  /** Version, flags, two zeros, handle, offset, length, data. */
  lemma ReadReplyBytes(handle: nat, offset: nat, data: seq<byte>, eof: bool)
    requires handle < 0x1_0000 && offset < 0x1_0000_0000 && |data| < 0x1_0000
    ensures var b := ChunkedRead.ReadBody(handle, offset, data, eof);
      && b[0] == 1 && b[1] == (if eof then 1 else 0) && b[2] == b[3] == 0
      && b[4] + 256 * (b[5] as int) == handle
      && b[6] + 256 * (b[7] as int) + 0x1_0000 * (b[8] as int) + 0x100_0000 * (b[9] as int) == offset
      && b[10] + 256 * (b[11] as int) == |data| && b[12..] == data
  {
    ChunkedRead.FourBytes(offset);
  }

  /** rxPacket has 321 bytes, of which 320 are received into and the data starts at 19. */
  lemma BufferSizes(rx: ChunkedRead.Packet, stored: ChunkedRead.Stored)
    ensures |rx| == 321 && |stored| <= 320 && ChunkedRead.Payload(rx) == rx[19..]
    ensures |stored| == 320 ==> ChunkedRead.Received(rx, stored) == stored + [rx[320]]
  {
    ChunkedRead.ReceivedIs(rx, stored);
  }

  // ------------------------------------------------------------- quoted strings

  /** n backslashes, and no more, end just before i, not looking before start. */
  predicate RunEnds(payload: seq<byte>, start: nat, i: nat, n: nat) {
    && start + n <= i <= |payload|
    && (forall k :: i - n <= k < i ==> payload[k] == 92)
    && (start + n < i ==> payload[i - n - 1] != 92)
  }

  /** A quote closes the value exactly when an even run of backslashes ends just before it. */
  lemma ClosingQuote(payload: seq<byte>, start: nat, i: nat, n: nat)
    requires RunEnds(payload, start, i, n)
    ensures JsonScan.ClosesAt(payload, start, i) <==> i < |payload| && payload[i] == 34 && n % 2 == 0
  {
    BackslashRun(payload, start, i, n);
  }

  lemma {:induction false} BackslashRun(payload: seq<byte>, start: nat, i: nat, n: nat)
    requires RunEnds(payload, start, i, n)
    ensures JsonScan.Backslashes(payload, start, i) == n
  {
    if n == 0 {
    } else {
      BackslashRun(payload, start, i - 1, n - 1);
    }
  }
}
