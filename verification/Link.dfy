/** A packet from FNbuild_fujibus_packet over the wire to FNpacket_checksum_ok, and when the checksum lets
    through what the receive machine as written has changed. */
module Link {
  import opened Bytes
  import opened Checksum
  import opened Slip

  /** What storing escape codes adds to a packet: 28 for each END and 2 for each ESCAPE. */
  function Gain(s: seq<byte>): nat {
    if s == [] then 0 else Gain(s[..|s| - 1]) + ByteGain(s[|s| - 1])
  }

  function ByteGain(b: byte): nat {
    if b == END then 28 else if b == ESCAPE then 2 else 0
  }

  lemma {:induction false} StoredSum(s: seq<byte>)
    ensures Sum(StoredAs(s, true)) == Sum(s) + Gain(s)
  {
    if s == [] {
      assert StoredAs(s, true) == [];
    } else {
      var n := |s| - 1;
      StoredSum(s[..n]);
      assert StoredAs(s, true)[..n] == StoredAs(s[..n], true);
    }
  }

  lemma OfSumPlus(sum: nat, x: nat, g: nat)
    requires sum > 0 && OfSum(sum) + g <= 255
    ensures OfSum(sum + x) == OfSum(sum) + g <==> (x - g) % 255 == 0
  {
    Mod255(sum + g - 1, OfSum(sum) + g - 1, (sum - 1) / 255);
    SameOfSum(sum + x, sum + g);
    assert (sum + x) - (sum + g) == x - g;
  }

  /** What the machine as written stores is read with this length: only an END or ESCAPE among the length
      bytes changes it, and never downwards. */
  lemma StoredLength(packet: seq<byte>)
    requires |packet| >= 6
    ensures U16(StoredAs(packet, true), 2) == U16(packet, 2) + ByteGain(packet[2]) + 256 * ByteGain(packet[3])
  {}

  /** A good packet stored by the machine as written passes the receiver's check exactly when what it gained,
      less what its checksum byte gained, comes to a multiple of 255. `after` is what lies behind it in
      memory; it is summed only as far as a changed length field reaches. */
  lemma DefectUnnoticed(packet: seq<byte>, after: seq<byte>)
    requires |packet| >= 6 && U16(packet, 2) == |packet| && ChecksumOk(packet)
    requires U16(StoredAs(packet, true), 2) <= |packet| + |after|
    ensures |packet| <= U16(StoredAs(packet, true), 2)
    ensures var stored := StoredAs(packet, true);
      ChecksumOk(stored + after) <==>
        (Gain(packet[4 := 0]) + Sum(after[..U16(stored, 2) - |packet|]) - ByteGain(packet[4])) % 255 == 0
  {
    hide Fold, Sum, OfSum, Gain;
    var stored, sent := StoredAs(packet, true), packet[4 := 0];
    StoredLength(packet);
    var extra := after[..U16(stored, 2) - |packet|];
    var arrived := StoredAs(sent, true);
    assert Summed(packet) == sent;
    assert Summed(stored + after) == arrived + extra;
    FoldClosedForm(sent);
    FoldClosedForm(arrived + extra);
    StoredSum(sent);
    SumJoin(arrived, extra);
    assert sent[2] == packet[2] && sent[3] == packet[3];
    OfSumPlus(Sum(sent), Gain(sent) + Sum(extra), ByteGain(packet[4]));
  }

  lemma SumJoin(a: seq<byte>, b: seq<byte>)
    ensures Sum(a + b) == Sum(a) + Sum(b)
  {
    SumSplit(a + b, |a|);
    assert (a + b)[..|a|] == a && (a + b)[|a|..] == b;
  }

  /** End to end, whatever the noise before and the bytes after: a good packet sent as a frame, a request the
      client built or a device's reply, reaches the intended receiver unchanged and passes its check. The
      receiver as written gets it with escape codes in place of ENDs and ESCAPEs, and accepts that exactly
      when the gains cancel out: so it takes a wrong packet for a good one exactly when they cancel out and
      there was something to gain. */
  lemma EndToEnd(packet: seq<byte>, noise: seq<byte>, ends: nat, rest: seq<byte>, capacity: nat, after: seq<byte>)
    requires |packet| >= 6 && U16(packet, 2) == |packet| && ChecksumOk(packet)
    requires END !in noise && |packet| <= capacity && U16(StoredAs(packet, true), 2) <= |packet| + |after|
    ensures var stored, wire := StoredAs(packet, true), noise + Ends(ends) + Frame(packet) + rest;
      && |packet| <= U16(stored, 2)
      && Run(Waiting, wire, capacity, false) == Done(packet) && U16(packet + after, 2) == |packet|
      && ChecksumOk(packet + after)
      && Run(Waiting, wire, capacity, true) == Done(stored)
      && (stored == packet <==> END !in packet && ESCAPE !in packet)
      && (ChecksumOk(stored + after) <==>
          (Gain(packet[4 := 0]) + Sum(after[..U16(stored, 2) - |packet|]) - ByteGain(packet[4])) % 255 == 0)
  {
    hide Fold, Sum, Gain, Run, Frame, StoredAs;
    RoundTrip(noise, ends, packet, rest, capacity, false);
    RoundTrip(noise, ends, packet, rest, capacity, true);
    assert Summed(packet + after) == Summed(packet);
    DefectUnnoticed(packet, after);
  }

  /** Requests from FNbuild_fujibus_packet are such packets. */
  lemma BuiltPacketIsGood(device: byte, command: byte, payload: seq<byte>)
    requires 6 + |payload| < 0x1_0000
    ensures var packet := Packet(device, command, payload);
      U16(packet, 2) == |packet| && ChecksumOk(packet)
  {
    BuiltPacketPasses(device, command, payload, []);
    assert Packet(device, command, payload) + [] == Packet(device, command, payload);
  }

  /** FNsend_request_expect and FNpacket_status on a READ reply that has arrived. */
  predicate AcceptedRead(rx: seq<byte>)
    requires |rx| >= 7 && U16(rx, 2) <= |rx|
  {
    rx[0] == 0xFD && rx[1] == 2 && ChecksumOk(rx) && rx[5] == 1 && rx[6] == 0
  }

  /** A READ reply on handle 0x12D5 with one byte of data, and its checksum. */
  function OneByteReply(chk: byte, data: byte): (reply: seq<byte>)
    ensures |reply| == 20
  {
    [253, 2, 20, 0, chk, 1, 0, 1, 1, 0, 0, 213, 18, 0, 0, 0, 0, 1, 0, data]
  }

  lemma OneByteReplyAccepted(chk: byte, data: byte)
    ensures U16(OneByteReply(chk, data), 2) == 20
    ensures AcceptedRead(OneByteReply(chk, data)) <==> chk == OfSum(510 + data)
  {
    hide Fold, Sum, OfSum;
    var reply, zeroed := OneByteReply(chk, data), OneByteReply(0, data);
    assert Summed(reply) == zeroed;
    SumTwenty(zeroed);
    FoldClosedForm(zeroed);
  }

  /** When the data byte is 192 the checksum is 192 too: both become 220, and every check of the client still
      passes. */
  lemma DefectSlipsThrough()
    ensures U16(OneByteReply(192, 192), 2) == 20 && AcceptedRead(OneByteReply(192, 192))
    ensures StoredAs(OneByteReply(192, 192), true) == OneByteReply(220, 220)
    ensures U16(OneByteReply(220, 220), 2) == 20 && AcceptedRead(OneByteReply(220, 220))
  {
    OneByteReplyAccepted(192, 192);
    OneByteReplyAccepted(220, 220);
  }

  lemma SumTwenty(s: seq<byte>)
    requires |s| == 20
    ensures Sum(s) == (s[0] as int) + s[1] + s[2] + s[3] + s[4] + s[5] + s[6] + s[7] + s[8] + s[9] + s[10] + s[11]
      + s[12] + s[13] + s[14] + s[15] + s[16] + s[17] + s[18] + s[19]
  {
    SumJoin(s[..6], s[6..]);
    SumJoin(s[6..12], s[12..]);
    SumJoin(s[12..18], s[18..]);
    SumSix(s[..6]);
    SumSix(s[6..12]);
    SumSix(s[12..18]);
    SumTwo(s[18..]);
    assert s == s[..6] + s[6..] && s[6..] == s[6..12] + s[12..] && s[12..] == s[12..18] + s[18..];
  }

  lemma SumTwo(s: seq<byte>)
    requires |s| == 2
    ensures Sum(s) == (s[0] as int) + s[1]
  {
    assert s[..2] == s && s[..0] == [];
    SumNext(s, 0);
    SumNext(s, 1);
  }
}
