/** SLIP framing on the 6502: the transmit loop, the receive machine as written, and the decoder
    that RFC 1055, section PROTOCOL, asks for. */
module Slip {
  import opened Bytes

  const END: byte := 0xC0
  const ESCAPE: byte := 0xDB
  const ESC_END: byte := 0xDC
  const ESC_ESC: byte := 0xDD

  // -------------------------------------------------------------- transmit

  function EscapeByte(b: byte): seq<byte> {
    if b == END then [ESCAPE, ESC_END] else if b == ESCAPE then [ESCAPE, ESC_ESC] else [b]
  }

  function Escape(packet: seq<byte>): seq<byte> {
    if packet == [] then [] else EscapeByte(packet[0]) + Escape(packet[1..])
  }

  function Frame(packet: seq<byte>): seq<byte> {
    [END] + Escape(packet) + [END]
  }

  lemma {:induction false} EscapeHasNoEnd(packet: seq<byte>)
    ensures END !in Escape(packet)
  {
    if packet == [] {
    } else {
      EscapeHasNoEnd(packet[1..]);
    }
  }

  lemma {:induction false} EscapeAppend(packet: seq<byte>, b: byte)
    ensures Escape(packet + [b]) == Escape(packet) + EscapeByte(b)
  {
    if packet == [] {
      assert [] + [b] == [b] && [b][1..] == [] && Escape([]) == [];
      assert Escape([b]) == EscapeByte(b) + Escape([b][1..]);
    } else {
      EscapeAppend(packet[1..], b);
      hide EscapeByte;
      assert (packet + [b])[1..] == packet[1..] + [b];
      assert Escape(packet + [b]) == EscapeByte(packet[0]) + (Escape(packet[1..]) + EscapeByte(b));
    }
  }

  /** entry .. send_done: &7E/&7F counts up to the length in &74/&75; OSWRCH appends to `wire`. */
  method Transmit(packet: seq<byte>, length: Word) returns (wire: seq<byte>)
    requires |packet| == length.Value()
    ensures wire == Frame(packet)
  {
    wire := [END];
    var sent, n := Word(0, 0), 0;
    while sent.lo != length.lo || sent.hi != length.hi
      invariant n == sent.Value() && n <= |packet|
      invariant wire == [END] + Escape(packet[..n])
      decreases |packet| - n
    {
      WordsEqual(sent, length);
      var a := packet[n];                             // LDA (&7A),Y
      if a == END {
        wire := wire + [ESCAPE] + [ESC_END];
      } else if a == ESCAPE {
        wire := wire + [ESCAPE] + [ESC_ESC];
      } else {
        wire := wire + [a];
      }
      EscapeNext(packet, n);
      sent, n := sent.Inc(), n + 1;
    }
    assert packet[..n] == packet;
    wire := wire + [END];
  }

  lemma EscapeNext(packet: seq<byte>, n: nat)
    requires n < |packet|
    ensures [END] + Escape(packet[..n + 1]) == [END] + Escape(packet[..n]) + EscapeByte(packet[n])
  {
    EscapeAppend(packet[..n], packet[n]);
    assert packet[..n + 1] == packet[..n] + [packet[n]];
  }

  // --------------------------------------------------------------- receive

  /** wait_start; frame_loop with the escape flag &78 and the bytes stored so far; the two exits. */
  datatype Receiver = Waiting | InFrame(escaped: bool, stored: seq<byte>) | Done(packet: seq<byte>) | Failed

  function Store(stored: seq<byte>, value: byte, capacity: nat): Receiver {
    if |stored| == capacity then Failed else InFrame(false, stored + [value])
  }

  /** One received byte. With `reload`, store_char stores the raw byte again (LDA &79), as written;
      without it, the unescaped byte already in A is stored, as RFC 1055 asks. */
  function Step(r: Receiver, b: byte, capacity: nat, reload: bool): Receiver {
    match r
    case Waiting => if b == END then InFrame(false, []) else Waiting
    case InFrame(escaped, stored) =>
      if escaped then
        if b == ESC_END then Store(stored, if reload then b else END, capacity)
        else if b == ESC_ESC then Store(stored, if reload then b else ESCAPE, capacity)
        else Failed
      else if b == END then (if stored == [] then r else Done(stored))
      else if b == ESCAPE then InFrame(true, stored)
      else Store(stored, b, capacity)
    case Done(_) => r
    case Failed => r
  }

  function Run(r: Receiver, input: seq<byte>, capacity: nat, reload: bool): Receiver
    decreases |input|
  {
    if input == [] || r.Done? || r.Failed? then r
    else Run(Step(r, input[0], capacity, reload), input[1..], capacity, reload)
  }

  /** What the machine stores for a packet byte: escaped bytes keep their escape code if reloaded. */
  function StoredByte(b: byte, reload: bool): byte {
    if !reload then b else if b == END then ESC_END else if b == ESCAPE then ESC_ESC else b
  }

  function StoredAs(packet: seq<byte>, reload: bool): (r: seq<byte>)
    ensures |r| == |packet|
  {
    seq(|packet|, i requires 0 <= i < |packet| => StoredByte(packet[i], reload))
  }

  lemma StoredUnchanged(packet: seq<byte>, reload: bool)
    ensures StoredAs(packet, reload) == packet <==> !reload || (END !in packet && ESCAPE !in packet)
  {
    if !reload || (END !in packet && ESCAPE !in packet) {
      assert StoredAs(packet, reload) == packet;
    } else {
      var i :| 0 <= i < |packet| && (packet[i] == END || packet[i] == ESCAPE);
      assert StoredAs(packet, reload)[i] != packet[i];
    }
  }

  lemma RunStep(r: Receiver, input: seq<byte>, i: nat, capacity: nat, reload: bool)
    requires i < |input|
    ensures Run(r, input[i..], capacity, reload) ==
            Run(Step(r, input[i], capacity, reload), input[i + 1..], capacity, reload)
  {
    var next := Step(r, input[i], capacity, reload);
    assert input[i..][0] == input[i] && input[i..][1..] == input[i + 1..];
    if r.Done? || r.Failed? { assert next == r && Run(r, input[i + 1..], capacity, reload) == r; }
  }

  /** Where the 6502 program is: in wait_start, in frame_loop, or past one of its exits. */
  datatype Phase = WaitStart | FrameLoop | TransOk | TransFail

  /** The receive half's zero page: escape flag &78, count &7E/&7F, capacity &72/&73. */
  class ReceiveMachine {
    var phase: Phase
    var escape: byte
    var count: Word
    const capacity: Word
    const buffer: array<byte>

    ghost predicate Valid()
      reads this
    {
      && count.Value() <= capacity.Value() <= buffer.Length && escape <= 1
      && (phase.WaitStart? ==> count.Value() == 0 && escape == 0)
    }

    ghost function State(): Receiver
      requires Valid()
      reads this, buffer
    {
      match phase
      case WaitStart => Waiting
      case FrameLoop => InFrame(escape == 1, buffer[..count.Value()])
      case TransOk => Done(buffer[..count.Value()])
      case TransFail => Failed
    }

    constructor (buffer: array<byte>, capacity: Word)
      requires capacity.Value() <= buffer.Length
      ensures Valid() && this.buffer == buffer && this.capacity == capacity && State() == Waiting
    {
      this.buffer, this.capacity := buffer, capacity;
      phase, escape, count := WaitStart, 0, Word(0, 0);
    }

    /** store_char */
    method StoreChar(received: byte)
      requires Valid() && phase.FrameLoop?
      modifies this`phase, this`count, buffer
      ensures Valid()
      ensures old(count) == capacity ==> phase.TransFail?
      ensures old(count) != capacity ==>
        phase.FrameLoop? && count.Value() == old(count.Value()) + 1
        && buffer[..count.Value()] == old(buffer[..count.Value()]) + [received]
      ensures forall k :: capacity.Value() <= k < buffer.Length ==> buffer[k] == old(buffer[k])
    {
      WordsEqual(count, capacity);
      if count.lo == capacity.lo && count.hi == capacity.hi {
        phase := TransFail;
        return;
      }
      buffer[count.Value()] := received;              // LDA &79 : STA (&7A),Y
      count := count.Inc();
    }

    /** One byte into the machine. */
    method Accept(received: byte)
      requires Valid()
      modifies this, buffer
      ensures Valid()
      ensures State() == Step(old(State()), received, capacity.Value(), true)
      ensures forall k :: capacity.Value() <= k < buffer.Length ==> buffer[k] == old(buffer[k])
    {
      if phase.WaitStart? {
        if received == END { phase := FrameLoop; }
      } else if phase.FrameLoop? {
        WordsEqual(count, capacity);
        if escape == 0 {
          if received == END {
            if !count.IsZero() { phase := TransOk; }
          } else if received == ESCAPE {
            escape := 1;
          } else {
            StoreChar(received);
          }
        } else {
          escape := 0;
          if received == ESC_END || received == ESC_ESC {
            StoreChar(received);
          } else {
            phase := TransFail;
          }
        }
      }
    }
  }

  /** entry's receive half. `input` is what arrives before the timeout. The result is the length left
      in &72/&73, zero on failure; the bytes go to `buffer`, never past `capacity`. */
  method Receive(input: seq<byte>, buffer: array<byte>, capacity: Word) returns (length: Word)
    requires capacity.Value() <= buffer.Length
    modifies buffer
    ensures forall k :: capacity.Value() <= k < buffer.Length ==> buffer[k] == old(buffer[k])
    ensures var r := Run(Waiting, input, capacity.Value(), true);
            if r.Done? then length.Value() == |r.packet| <= capacity.Value() && buffer[..|r.packet|] == r.packet
            else length.Value() == 0
  {
    hide Step;
    var machine := new ReceiveMachine(buffer, capacity);
    var i := 0;
    assert input[0..] == input;
    while i < |input|
      invariant i <= |input| && fresh(machine)
      invariant machine.Valid() && machine.buffer == buffer && machine.capacity == capacity
      invariant Run(Waiting, input, capacity.Value(), true) == Run(machine.State(), input[i..], capacity.Value(), true)
      invariant forall k :: capacity.Value() <= k < buffer.Length ==> buffer[k] == old(buffer[k])
    {
      RunStep(machine.State(), input, i, capacity.Value(), true);
      machine.Accept(input[i]);
      i := i + 1;
    }
    assert input[i..] == [] && Run(machine.State(), [], capacity.Value(), true) == machine.State();
    ghost var r := Run(Waiting, input, capacity.Value(), true);
    assert r == machine.State();
    assert r.Done? ==> r.packet == buffer[..machine.count.Value()] && |r.packet| == machine.count.Value();
    length := if machine.phase.TransOk? then machine.count else Word(0, 0);
  }

  // ------------------------------------------------- what the machine accepts

  lemma StoredFirst(packet: seq<byte>, reload: bool)
    requires packet != []
    ensures StoredAs(packet, reload) == [StoredByte(packet[0], reload)] + StoredAs(packet[1..], reload)
  {}

  /** A packet's escaped bytes, from inside a frame. */
  lemma {:induction false} RunEscaped(stored: seq<byte>, packet: seq<byte>, tail: seq<byte>, capacity: nat,
                                      reload: bool)
    requires |stored| <= capacity
    ensures Run(InFrame(false, stored), Escape(packet) + tail, capacity, reload) ==
            if |stored| + |packet| <= capacity
            then Run(InFrame(false, stored + StoredAs(packet, reload)), tail, capacity, reload)
            else Failed
    decreases |packet|
  {
    hide StoredAs;
    var input := Escape(packet) + tail;
    if packet == [] {
      assert input == tail && stored + StoredAs(packet, reload) == stored + [] == stored;
    } else {
      var b, rest := packet[0], Escape(packet[1..]) + tail;
      var value := StoredByte(b, reload);
      assert input == EscapeByte(b) + rest;
      if b == END || b == ESCAPE {
        assert input[0] == ESCAPE && input[1..][0] == EscapeByte(b)[1] && input[1..][1..] == rest;
        assert Run(InFrame(false, stored), input, capacity, reload)
            == Run(InFrame(true, stored), input[1..], capacity, reload)
            == Run(Store(stored, value, capacity), rest, capacity, reload);
      } else {
        assert input[0] == b && input[1..] == rest;
        assert Run(InFrame(false, stored), input, capacity, reload)
            == Run(Store(stored, value, capacity), rest, capacity, reload);
      }
      if |stored| < capacity {
        RunEscaped(stored + [value], packet[1..], tail, capacity, reload);
        StoredFirst(packet, reload);
        assert stored + [value] + StoredAs(packet[1..], reload) == stored + StoredAs(packet, reload);
      }
    }
  }

  lemma {:induction false} SkipNoise(noise: seq<byte>, tail: seq<byte>, capacity: nat, reload: bool)
    requires END !in noise
    ensures Run(Waiting, noise + [END] + tail, capacity, reload) == Run(InFrame(false, []), tail, capacity, reload)
  {
    var input := noise + [END] + tail;
    if noise == [] {
      assert input[1..] == tail;
    } else {
      SkipNoise(noise[1..], tail, capacity, reload);
      assert input[1..] == noise[1..] + [END] + tail;
    }
  }

  function Ends(n: nat): seq<byte> {
    seq(n, _ => END)
  }

  lemma {:induction false} SkipEnds(n: nat, tail: seq<byte>, capacity: nat, reload: bool)
    ensures Run(InFrame(false, []), Ends(n) + tail, capacity, reload) == Run(InFrame(false, []), tail, capacity, reload)
  {
    if n == 0 {
      assert Ends(0) + tail == tail;
    } else {
      SkipEnds(n - 1, tail, capacity, reload);
      assert (Ends(n) + tail)[1..] == Ends(n - 1) + tail;
    }
  }

  /** Round trip through the wire, for both machines: after END-free noise and any number of further
      ENDs, a transmitted packet comes out as stored; one that is too long fails. The intended machine
      returns the packet itself; the one as written does so exactly when it has no END or ESCAPE. */
  lemma RoundTrip(noise: seq<byte>, ends: nat, packet: seq<byte>, rest: seq<byte>, capacity: nat, reload: bool)
    requires END !in noise && packet != []
    ensures Run(Waiting, noise + Ends(ends) + Frame(packet) + rest, capacity, reload) ==
            if |packet| <= capacity then Done(StoredAs(packet, reload)) else Failed
    ensures StoredAs(packet, reload) == packet <==> !reload || (END !in packet && ESCAPE !in packet)
  {
    hide Step, Escape, StoredAs;
    var stored, last := StoredAs(packet, reload), [END] + rest;
    var tail := Escape(packet) + last;
    var input := noise + Ends(ends) + Frame(packet) + rest;
    FrameRegrouped(noise, ends, packet, rest);
    SkipNoise(noise, Ends(ends) + tail, capacity, reload);
    SkipEnds(ends, tail, capacity, reload);
    RunEscaped([], packet, last, capacity, reload);
    assert [] + stored == stored;
    EndAccepts(stored, last, capacity);
    StoredUnchanged(packet, reload);
  }

  /** A packet of one END: the intended machine returns it, the one as written returns its escape code. */
  lemma EndComesBackAsCode()
    ensures Run(Waiting, Frame([END]), 16, false) == Done([END])
    ensures Run(Waiting, Frame([END]), 16, true) == Done([ESC_END])
  {
    hide Run, Frame;
    assert [] + Ends(0) + Frame([END]) + [] == Frame([END]);
    RoundTrip([], 0, [END], [], 16, false);
    RoundTrip([], 0, [END], [], 16, true);
    assert StoredAs([END], false) == [END] && StoredAs([END], true) == [ESC_END];
  }

  lemma FrameRegrouped(noise: seq<byte>, ends: nat, packet: seq<byte>, rest: seq<byte>)
    ensures noise + Ends(ends) + Frame(packet) + rest ==
            noise + [END] + (Ends(ends) + (Escape(packet) + ([END] + rest)))
  {
    hide Escape;
    assert [END] + Ends(ends) == Ends(ends) + [END];
    assert noise + Ends(ends) + Frame(packet) + rest
        == noise + (Ends(ends) + [END]) + (Escape(packet) + ([END] + rest));
  }

  /** Nothing but escaped bytes and an END is accepted once a frame has begun. */
  lemma {:induction false} BodyParsed(stored: seq<byte>, input: seq<byte>, capacity: nat)
    returns (packet: seq<byte>, rest: seq<byte>)
    requires |stored| <= capacity && Run(InFrame(false, stored), input, capacity, false).Done?
    requires stored != [] || input[0] != END
    ensures Run(InFrame(false, stored), input, capacity, false).packet == stored + packet
    ensures 1 <= |stored + packet| <= capacity
    ensures input == Escape(packet) + ([END] + rest)
    decreases |input|
  {
    hide Step, Escape;
    if input[0] == END {
      packet, rest := [], input[1..];
      EndAccepts(stored, input, capacity);
      assert stored + [] == stored && Escape([]) == [] by { EmptyEscape(); }
      return;
    }
    var value, used := BodyByte(stored, input, capacity);
    packet, rest := BodyParsed(stored + [value], input[used..], capacity);
    PrefixPacket(value, packet, [END] + rest);
    assert stored + [value] + packet == stored + ([value] + packet);
    packet := [value] + packet;
  }

  lemma EmptyEscape()
    ensures Escape([]) == []
  {}

  lemma EndAccepts(stored: seq<byte>, input: seq<byte>, capacity: nat)
    requires input != [] && input[0] == END && stored != []
    ensures Run(InFrame(false, stored), input, capacity, false) == Done(stored)
    ensures Run(InFrame(false, stored), input, capacity, true) == Done(stored)
  {}

  /** The next one or two bytes of an accepted frame stand for one packet byte, and there is room. */
  lemma BodyByte(stored: seq<byte>, input: seq<byte>, capacity: nat) returns (value: byte, used: nat)
    requires |stored| <= capacity && Run(InFrame(false, stored), input, capacity, false).Done?
    requires input != [] && input[0] != END
    ensures 1 <= used <= |input| && |stored| < capacity && input == EscapeByte(value) + input[used..]
    ensures Run(InFrame(false, stored), input, capacity, false)
         == Run(InFrame(false, stored + [value]), input[used..], capacity, false)
  {
    value, used := input[0], 1;
    assert input[0..] == input;
    RunStep(InFrame(false, stored), input, 0, capacity, false);
    if value == ESCAPE {
      assert |input| > 1;
      RunStep(InFrame(true, stored), input, 1, capacity, false);
      value, used := if input[1] == ESC_END then END else ESCAPE, 2;
    }
    var next := Store(stored, value, capacity);
    assert Run(next, input[used..], capacity, false).Done?;
    assert next == InFrame(false, stored + [value]);
  }

  lemma PrefixPacket(value: byte, packet: seq<byte>, tail: seq<byte>)
    ensures EscapeByte(value) + (Escape(packet) + tail) == Escape([value] + packet) + tail
  {
    assert ([value] + packet)[1..] == packet;
    assert Escape([value] + packet) == EscapeByte(value) + Escape(packet);
  }

  /** ENDs before the first byte of a frame are skipped. */
  lemma {:induction false} FrameParsed(input: seq<byte>, capacity: nat)
    returns (ends: nat, packet: seq<byte>, rest: seq<byte>)
    requires Run(InFrame(false, []), input, capacity, false).Done?
    ensures Run(InFrame(false, []), input, capacity, false) == Done(packet)
    ensures 1 <= |packet| <= capacity
    ensures input == Ends(ends) + (Escape(packet) + ([END] + rest))
    decreases |input|
  {
    if input[0] == END {
      ends, packet, rest := FrameParsed(input[1..], capacity);
      assert input == [END] + input[1..] && [END] + Ends(ends) == Ends(ends + 1);
      ends := ends + 1;
    } else {
      packet, rest := BodyParsed([], input, capacity);
      ends := 0;
      assert [] + packet == packet;
      assert Ends(0) + input == input;
    }
  }

  ghost predicate Carries(input: seq<byte>, packet: seq<byte>) {
    exists noise: seq<byte>, ends: nat, rest: seq<byte> ::
      END !in noise && input == noise + Ends(ends) + Frame(packet) + rest
  }

  /** The intended machine accepts exactly the inputs that carry a frame, and yields its packet. */
  lemma AcceptsExactlyFrames(input: seq<byte>, packet: seq<byte>, capacity: nat)
    ensures Run(Waiting, input, capacity, false) == Done(packet) <==>
            1 <= |packet| <= capacity && Carries(input, packet)
  {
    if Run(Waiting, input, capacity, false) == Done(packet) {
      var noise, tail := NoiseParsed(input, capacity);
      var ends, p, rest := FrameParsed(tail, capacity);
      FrameRegrouped(noise, ends, p, rest);
    }
    if 1 <= |packet| <= capacity && Carries(input, packet) {
      var noise: seq<byte>, ends: nat, rest: seq<byte> :|
        END !in noise && input == noise + Ends(ends) + Frame(packet) + rest;
      RoundTrip(noise, ends, packet, rest, capacity, false);
    }
  }

  lemma {:induction false} NoiseParsed(input: seq<byte>, capacity: nat) returns (noise: seq<byte>, tail: seq<byte>)
    requires Run(Waiting, input, capacity, false).Done?
    ensures END !in noise && input == noise + [END] + tail
    ensures Run(InFrame(false, []), tail, capacity, false) == Run(Waiting, input, capacity, false)
  {
    if input[0] == END {
      noise, tail := [], input[1..];
    } else {
      noise, tail := NoiseParsed(input[1..], capacity);
      noise := [input[0]] + noise;
    }
  }

  /** The machine as written follows the intended one on every input, byte for byte, storing escape
      codes in place of the bytes they stand for. */
  function AsWritten(r: Receiver): Receiver {
    match r
    case InFrame(escaped, stored) => InFrame(escaped, StoredAs(stored, true))
    case Done(packet) => Done(StoredAs(packet, true))
    case _ => r
  }

  lemma {:induction false} WrittenFollowsIntended(r: Receiver, input: seq<byte>, capacity: nat)
    ensures Run(AsWritten(r), input, capacity, true) == AsWritten(Run(r, input, capacity, false))
    decreases |input|
  {
    if input != [] && !r.Done? && !r.Failed? {
      var next := Step(r, input[0], capacity, false);
      if r.InFrame? {
        forall v: byte
          ensures StoredAs(r.stored + [v], true) == StoredAs(r.stored, true) + [StoredByte(v, true)]
        {}
      }
      assert Step(AsWritten(r), input[0], capacity, true) == AsWritten(next);
      WrittenFollowsIntended(next, input[1..], capacity);
    }
  }
}
