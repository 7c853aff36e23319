/** The BASIC clients' chunked reads, run against the network device's own read rule. */
module ChunkedRead {
  import opened Bytes
  import opened NetworkServer

  // ------------------------------------------------------- a READ reply in rxPacket

  const VERSION: byte := 1

  /** build_network_read_response: the body that follows the seven bytes of packet header and status. */
  function ReadBody(handle: nat, offset: nat, data: seq<byte>, eof: bool): (b: seq<byte>)
    requires handle < 0x1_0000 && offset < 0x1_0000_0000 && |data| < 0x1_0000
    ensures |b| == 12 + |data|
  {
    [VERSION, if eof then 1 else 0, 0, 0, handle % 256, handle / 256,
     offset % 256, offset / 256 % 256, offset / 0x1_0000 % 256, offset / 0x100_0000,
     |data| % 256, |data| / 256] + data
  }

  /** FNget_u16le(rxPacket, 17) */
  function DataLen(rx: seq<byte>): nat
    requires |rx| >= 19
  {
    rx[17] + 256 * (rx[18] as int)
  }

  /** (rxPacket?8 AND 1)<>0 */
  function Eof(rx: seq<byte>): bool
    requires |rx| >= 19
  {
    rx[8] % 2 == 1
  }

  /** FNget_u32le(rxPacket, 13) */
  function EchoOffset(rx: seq<byte>): nat
    requires |rx| >= 19
  {
    rx[13] + 256 * (rx[14] as int) + 0x1_0000 * (rx[15] as int) + 0x100_0000 * (rx[16] as int)
  }

  /** The client finds in rxPacket exactly what the device put in the reply. */
  lemma ReplyFieldsFound(header: seq<byte>, handle: nat, offset: nat, data: seq<byte>, eof: bool)
    requires |header| == 7 && handle < 0x1_0000 && offset < 0x1_0000_0000 && |data| < 0x1_0000
    ensures var rx := header + ReadBody(handle, offset, data, eof);
      && DataLen(rx) == |data| && Eof(rx) == eof && EchoOffset(rx) == offset && rx[19..] == data
  {
    var rx, b := header + ReadBody(handle, offset, data, eof), ReadBody(handle, offset, data, eof);
    assert forall k :: 0 <= k < |b| ==> rx[7 + k] == b[k];
    FourBytes(offset);
    assert rx[19..] == data;
  }

  lemma FourBytes(n: nat)
    requires n < 0x1_0000_0000
    ensures n / 0x100_0000 < 256
    ensures n % 256 + 256 * (n / 256 % 256) + 0x1_0000 * (n / 0x1_0000 % 256) + 0x100_0000 * (n / 0x100_0000) == n
  {
    assert n / 0x1_0000 == n / 256 / 256 && n / 0x100_0000 == n / 256 / 256 / 256;
  }

  // --------------------------------------------------------------- read everything

  const NET_READ_SIZE := 180
  /** fullPayload holds FULL_PAYLOAD% + 1 bytes. */
  const CAPACITY := 701

  /** One pass of PROCnetwork_read_all's loop: offset32%, fullPayload up to full_len%, and eof%. */
  datatype Client = Client(offset: nat, full: seq<byte>, eof: bool)

  /** FNnetwork_append_read_chunk refuses a chunk that does not fit, and then the offset stays put. */
  function Pass(source: seq<byte>, c: Client): Client {
    var r := ReadData(source, c.offset, NET_READ_SIZE);
    if |r.0| > 0 && |c.full| + |r.0| > CAPACITY then Client(c.offset, c.full, r.1)
    else Client(c.offset + |r.0|, c.full + r.0, r.1)
  }

  function Passes(source: seq<byte>, n: nat): Client {
    if n == 0 then Client(0, [], false) else Pass(source, Passes(source, n - 1))
  }

  /** The number of whole chunks that fit in fullPayload before one does not. */
  const WHOLE := 3
  const STUCK := 540

  /** While everything fits: offset and received length move together, a prefix at a time, and eof
      comes exactly with the last byte. */
  lemma {:induction false} PassesThatFit(source: seq<byte>, k: nat)
    requires |source| <= CAPACITY
    ensures var c := Passes(source, k);
      && c.offset == |c.full| == Min(NET_READ_SIZE * k, |source|) && c.full == source[..|c.full|]
      && (c.eof <==> k > 0 && c.full == source)
  {
    if k == 0 {
    } else {
      PassesThatFit(source, k - 1);
      NextChunk(source, Passes(source, k - 1));
    }
  }

  /** When it does not all fit, three chunks are stored and the fourth is refused for ever. */
  lemma {:induction false} PassesThatStick(source: seq<byte>, k: nat)
    requires |source| > CAPACITY
    ensures var c := Passes(source, k);
      && c.offset == |c.full| == NET_READ_SIZE * Min(k, WHOLE) && c.full == source[..|c.full|]
      && (c.eof <==> k > WHOLE && |source| <= STUCK + NET_READ_SIZE)
  {
    if k == 0 {
    } else {
      PassesThatStick(source, k - 1);
      NextChunk(source, Passes(source, k - 1));
    }
  }

  lemma NextChunk(source: seq<byte>, c: Client)
    requires c.offset == |c.full| <= |source| && c.full == source[..|c.full|]
    ensures var n, next := Min(NET_READ_SIZE, |source| - c.offset), Pass(source, c);
      && next.eof == (c.offset + n >= |source|)
      && next.offset == |next.full| && next.full == source[..|next.full|]
      && next.offset == if c.offset + n <= CAPACITY || n == 0 then c.offset + n else c.offset
  {
    var r := ReadData(source, c.offset, NET_READ_SIZE);
    assert c.full + r.0 == source[..c.offset + |r.0|];
  }

  /** The whole source arrives exactly when it has at most 701 bytes. From 702 to 720 the loop still
      ends, on a last chunk it could not store, with only 540 bytes; past 720 it never ends. */
  lemma ReadAllOutcome(source: seq<byte>)
    ensures |source| <= 701 ==> exists k: nat ::
      && Passes(source, k).eof && Passes(source, k).full == source
      && forall j: nat :: 0 < j < k ==> !Passes(source, j).eof
    ensures 701 < |source| <= 720 ==> exists k: nat ::
      && Passes(source, k).eof && Passes(source, k).full == source[..540]
      && forall j: nat :: 0 < j < k ==> !Passes(source, j).eof
    ensures |source| > 720 ==> forall k: nat ::
      && !Passes(source, k).eof && (k >= 3 ==> Passes(source, k).full == source[..540])
  {
    if |source| <= CAPACITY {
      var k := if |source| == 0 then 1 else (|source| + NET_READ_SIZE - 1) / NET_READ_SIZE;
      PassesThatFit(source, k);
      forall j: nat | 0 < j < k
        ensures !Passes(source, j).eof
      {
        PassesThatFit(source, j);
      }
    } else if |source| <= STUCK + NET_READ_SIZE {
      PassesThatStick(source, WHOLE + 1);
      forall j: nat | 0 < j < WHOLE + 1
        ensures !Passes(source, j).eof
      {
        PassesThatStick(source, j);
      }
    } else {
      forall k: nat
        ensures !Passes(source, k).eof && (k >= WHOLE ==> Passes(source, k).full == source[..STUCK])
      {
        PassesThatStick(source, k);
      }
    }
  }

  lemma PassesNext(source: seq<byte>, k: nat)
    ensures Passes(source, 0) == Client(0, [], false)
    ensures Passes(source, k + 1) == Pass(source, Passes(source, k))
  {}

  lemma LoopBounds(source: seq<byte>, k: nat)
    ensures Passes(source, k).offset <= CAPACITY
    ensures k > WHOLE && |source| <= STUCK + NET_READ_SIZE ==> Passes(source, k).eof
  {
    if |source| <= CAPACITY { PassesThatFit(source, k); } else { PassesThatStick(source, k); }
  }

  /** What is held after any number of passes, and what it is once eof came. */
  lemma ReceivedSoFar(source: seq<byte>, k: nat)
    ensures Passes(source, k).full <= source
    ensures Passes(source, k).eof ==> Passes(source, k).full == if |source| <= CAPACITY then source else source[..STUCK]
  {
    if |source| <= CAPACITY { PassesThatFit(source, k); } else { PassesThatStick(source, k); }
  }

  class JokeClient {
    /** fullPayload and full_len% */
    const fullPayload: array<byte>
    var fullLen: nat

    ghost predicate Valid()
      reads this, fullPayload
    {
      fullPayload.Length == CAPACITY && fullLen <= CAPACITY
    }

    ghost function Full(): seq<byte>
      requires Valid()
      reads this, fullPayload
    {
      fullPayload[..fullLen]
    }

    constructor ()
      ensures Valid() && Full() == [] && fresh(fullPayload)
    {
      fullPayload := new byte[CAPACITY](_ => 0);
      fullLen := 0;
    }

    /** FNnetwork_append_read_chunk: rxPacket holds the data from byte 19. */
    method AppendReadChunk(rx: seq<byte>, dlen: nat) returns (stored: bool)
      requires Valid() && |rx| >= 19 + dlen
      modifies this, fullPayload
      ensures Valid()
      ensures stored <==> dlen == 0 || |old(Full())| + dlen <= CAPACITY
      ensures Full() == if stored then old(Full()) + rx[19..19 + dlen] else old(Full())
    {
      if dlen == 0 { return true; }
      if fullLen + dlen > CAPACITY { return false; }
      var i := 0;
      while i < dlen
        invariant i <= dlen && Valid() && fullLen == old(fullLen)
        invariant fullPayload[..fullLen] == old(Full())
        invariant fullPayload[fullLen..fullLen + i] == rx[19..19 + i]
      {
        fullPayload[fullLen + i] := rx[19 + i];
        i := i + 1;
      }
      assert fullPayload[..fullLen + dlen] == fullPayload[..fullLen] + fullPayload[fullLen..fullLen + dlen];
      fullLen := fullLen + dlen;
      stored := true;
    }

    /** The body of the loop: one READ request, its reply, and what is kept of it. */
    method OnePass(server: Server, handle: nat, header: seq<byte>, offset: nat) returns (newOffset: nat, eof: bool)
      requires Valid() && |header| == 7 && handle < 0x1_0000 && offset <= CAPACITY
      modifies this, fullPayload
      ensures Valid()
      ensures Client(newOffset, Full(), eof) == Pass(Served(server, handle), Client(offset, old(Full()), false))
    {
      var reply := server.ReadHandle(handle, offset, NET_READ_SIZE);
      assert (reply.data, reply.eof) == ReadData(Served(server, handle), offset, NET_READ_SIZE);
      hide ReadData, ReadBody, DataLen, Eof;
      var rx := header + ReadBody(handle, offset, reply.data, reply.eof);
      ReplyFieldsFound(header, handle, offset, reply.data, reply.eof);
      var dlen := DataLen(rx);
      eof := Eof(rx);
      var stored := AppendReadChunk(rx, dlen);
      newOffset := if stored then offset + dlen else offset;
      assert rx[19..19 + dlen] == reply.data;
    }

    /** PROCnetwork_read_all against a server whose handle stays put. `answered` says which requests get
        an OK reply; the first that does not ends the loop. With every request answered, a source longer
        than 720 bytes would keep it going for ever. */
    method ReadAll(server: Server, handle: nat, header: seq<byte>, answered: nat -> bool)
      returns (passes: nat, eof: bool)
      requires Valid() && |header| == 7 && handle < 0x1_0000
      requires |Served(server, handle)| <= STUCK + NET_READ_SIZE || exists k: nat :: !answered(k)
      modifies this, fullPayload
      ensures Valid()
      ensures Full() == Passes(Served(server, handle), passes).full && eof == Passes(Served(server, handle), passes).eof
      ensures Answered(answered, passes)
      ensures !eof ==> !answered(passes)
      ensures Full() <= Served(server, handle)
      ensures eof ==>
        Full() ==
          if |Served(server, handle)| <= CAPACITY then Served(server, handle) else Served(server, handle)[..STUCK]
    {
      ghost var source := Served(server, handle);
      ghost var bound: nat := if |source| <= STUCK + NET_READ_SIZE then WHOLE else var k: nat :| !answered(k); k;
      hide Answered, Pass, Passes, Served;
      var offset: nat := 0;
      fullLen, passes, eof := 0, 0, false;
      assert Answered(answered, 0);
      PassesNext(source, 0);
      while !eof
        invariant Valid() && Served(server, handle) == source
        invariant Passes(source, passes) == Client(offset, Full(), eof)
        invariant offset <= CAPACITY && (!eof ==> passes <= bound)
        invariant Answered(answered, passes)
        decreases bound + 1 - passes
      {
        PassesNext(source, passes);
        if !answered(passes) { break; }
        AnsweredNext(answered, passes, bound);
        offset, eof := OnePass(server, handle, header, offset);
        passes := passes + 1;
        LoopBounds(source, passes);
      }
      ReceivedSoFar(source, passes);
    }
  }

  /** The first n requests got an OK reply. */
  ghost predicate Answered(answered: nat -> bool, n: nat) {
    forall k: nat :: k < n ==> answered(k)
  }

  lemma AnsweredNext(answered: nat -> bool, n: nat, bound: nat)
    requires Answered(answered, n) && answered(n)
    ensures Answered(answered, n + 1)
    ensures !answered(bound) ==> n != bound
  {}

  /** What READ serves on a handle; nothing on one that is not open. */
  function Served(server: Server, handle: nat): seq<byte>
    reads server, server.handles.Values
  {
    if handle in server.handles then SourceOf(server.site, server.handles[handle].Value()) else []
  }

  // ------------------------------------------------------------- exact TCP reads

  const TCP_READ_CHUNK := 280
  const RX_BUFFER_SIZE := 320
  const STATUS_OK: byte := 0
  const STATUS_DEVICE_BUSY: byte := 3
  const STATUS_NOT_READY: byte := 4

  /** The bytes the receive machine stores in rxPacket from its start, never more than its capacity. */
  type Stored = s: seq<byte> | |s| <= RX_BUFFER_SIZE

  /** What FNsend_request_expect returns, and what it has left in rxPacket. */
  datatype Exchange = Exchange(ok: bool, stored: Stored)

  /** The i-th exchange, for any offset and length asked. */
  type Device = (nat, nat, int) -> Exchange

  /** rxPacket, with DIM's extra byte. */
  type Packet = rx: seq<byte> | |rx| == RX_BUFFER_SIZE + 1 witness Zeros(RX_BUFFER_SIZE + 1)

  function Received(rx: Packet, stored: Stored): Packet {
    Overlay(rx, 0, stored)
  }

  lemma ReceivedIs(rx: Packet, stored: Stored)
    ensures Received(rx, stored) == stored + rx[|stored|..]
  {}

  /** FNpayload_byte(0) onwards */
  function Payload(rx: Packet): (p: seq<byte>)
    ensures |p| == RX_BUFFER_SIZE - 18
  {
    rx[19..]
  }

  /** FNnetwork_read_chunk: a failure, not ready or busy, or an OK reply with its three fields. */
  datatype ChunkReply = Error | NotReady | Good(dataLen: nat, eof: bool, echoOffset: nat)

  function ChunkState(ok: bool, rx: Packet): ChunkReply {
    if !ok || rx[5] != 1 then Error
    else if rx[6] == STATUS_OK then Good(DataLen(rx), Eof(rx), EchoOffset(rx))
    else if rx[6] == STATUS_NOT_READY || rx[6] == STATUS_DEVICE_BUSY then NotReady
    else Error
  }

  /** The count returned, rxPacket as the caller finds it, and the number of exchanges made. */
  datatype Outcome = Outcome(count: nat, rx: Packet, made: nat)

  /** FNtcp_read_exact_payload as a function of the exchanges. */
  function TcpRead(device: Device, i: nat, cursor: nat, total: nat, got: nat, tries: nat, retries: int, before: Packet)
    : (r: Outcome)
    requires got <= total && tries <= Max(0, retries)
    ensures got <= r.count <= total
    decreases total - got, Max(0, retries) - tries
  {
    var exchange := device(i, cursor + got, Min(total - got, TCP_READ_CHUNK));
    var rx := Received(before, exchange.stored);
    match ChunkState(exchange.ok, rx)
    case Error => Outcome(got, rx, i + 1)
    case NotReady =>
      if tries + 1 > retries || got >= total then Outcome(got, rx, i + 1)
      else TcpRead(device, i + 1, cursor, total, got, tries + 1, retries, rx)
    case Good(dataLen, eof, echoOffset) =>
      if echoOffset != cursor + got || (dataLen == 0 && !eof) then Outcome(got, rx, i + 1)
      else
        var n := Min(dataLen, total - got);
        if eof || got + n >= total then Outcome(got + n, rx, i + 1)
        else TcpRead(device, i + 1, cursor, total, got + n, 0, retries, rx)
  }

  lemma TcpUnfold(device: Device, i: nat, cursor: nat, total: nat, got: nat, tries: nat, retries: int, before: Packet)
    requires got <= total && tries <= Max(0, retries)
    ensures TcpRead(device, i, cursor, total, got, tries, retries, before) ==
      var exchange := device(i, cursor + got, Min(total - got, TCP_READ_CHUNK));
      var rx := Received(before, exchange.stored);
      var reply := ChunkState(exchange.ok, rx);
      if reply.Error? then Outcome(got, rx, i + 1)
      else if reply.NotReady? then
        (if tries + 1 > retries || got >= total then Outcome(got, rx, i + 1)
         else TcpRead(device, i + 1, cursor, total, got, tries + 1, retries, rx))
      else if reply.echoOffset != cursor + got || (reply.dataLen == 0 && !reply.eof) then Outcome(got, rx, i + 1)
      else if reply.eof || got + reply.dataLen >= total then Outcome(got + Min(reply.dataLen, total - got), rx, i + 1)
      else TcpRead(device, i + 1, cursor, total, got + reply.dataLen, 0, retries, rx)
  {}

  class TcpClient {
    /** readCursor% and rxPacket */
    var readCursor: nat
    const rxPacket: array<byte>

    ghost predicate Valid()
      reads this
    {
      rxPacket.Length == RX_BUFFER_SIZE + 1
    }

    constructor ()
      ensures Valid() && fresh(rxPacket) && readCursor == 0
    {
      rxPacket := new byte[RX_BUFFER_SIZE + 1](_ => 0);
      readCursor := 0;
    }

    /** The receive machine's stores, from rxPacket?0. */
    method StorePacket(stored: Stored)
      requires Valid()
      modifies rxPacket
      ensures rxPacket[..] == Received(old(rxPacket[..]), stored)
    {
      var i := 0;
      while i < |stored|
        invariant i <= |stored|
        invariant rxPacket[..i] == stored[..i] && rxPacket[i..] == old(rxPacket[i..])
      {
        rxPacket[i] := stored[i];
        i := i + 1;
      }
      ReceivedIs(old(rxPacket[..]), stored);
      assert rxPacket[..] == rxPacket[..i] + rxPacket[i..];
    }

    /** FNtcp_read_exact_payload: whatever the device answers, the loop ends and the cursor moves by
        exactly the count returned. Every exchange overwrites rxPacket from its start. */
    method ReadExactPayload(device: Device, total: nat, retries: int) returns (totalRead: nat, ghost made: nat)
      requires Valid()
      modifies this, rxPacket
      ensures Valid() && totalRead <= total && readCursor == old(readCursor) + totalRead
      ensures Outcome(totalRead, rxPacket[..], made)
           == TcpRead(device, 0, old(readCursor), total, 0, 0, retries, old(rxPacket[..]))
    {
      hide TcpRead, Received, ChunkState;
      totalRead, made := 0, 0;
      var tries, i := 0, 0;
      while true
        invariant totalRead <= total && readCursor == old(readCursor) + totalRead && tries <= Max(0, retries)
        invariant TcpRead(device, 0, old(readCursor), total, 0, 0, retries, old(rxPacket[..]))
               == TcpRead(device, i, old(readCursor), total, totalRead, tries, retries, rxPacket[..])
        decreases total - totalRead, Max(0, retries) - tries
      {
        TcpUnfold(device, i, old(readCursor), total, totalRead, tries, retries, rxPacket[..]);
        var chunkLen := total - totalRead;
        if chunkLen > TCP_READ_CHUNK { chunkLen := TCP_READ_CHUNK; }
        var exchange := device(i, readCursor, chunkLen);
        StorePacket(exchange.stored);
        var reply := ChunkState(exchange.ok, rxPacket[..]);
        i, made := i + 1, i + 1;
        if reply.Error? { return; }
        if reply.NotReady? {
          if tries + 1 > retries { return; }
          tries := tries + 1;
        } else {
          tries := 0;
          if reply.echoOffset != readCursor { return; }
          if reply.dataLen == 0 && !reply.eof { return; }
          var dataLen := reply.dataLen;
          if totalRead + dataLen > total { dataLen := total - totalRead; }
          totalRead := totalRead + dataLen;
          readCursor := readCursor + dataLen;
          if reply.eof && totalRead < total { return; }
        }
        if totalRead >= total { return; }
      }
    }
  }

  // --------------------------------------------------- exact reads from the server

  /** The packets a server may send while it is not ready: that status, and no data. */
  predicate IsWaiting(stored: seq<byte>) {
    7 <= |stored| <= 19 && stored[5] == 1 && (stored[6] == STATUS_NOT_READY || stored[6] == STATUS_DEVICE_BUSY)
  }

  /** A connection to a server: what it serves, when it is ready, the packets it sends when it is not, and
      the seven bytes before a READ reply's body. */
  datatype Connection =
    Connection(source: seq<byte>, ready: nat -> bool, waiting: nat -> Stored, handle: nat, header: seq<byte>)
  {
    ghost predicate Valid() {
      && |source| < 0x1_0000_0000 && handle < 0x1_0000
      && |header| == 7 && header[5] == 1 && header[6] == STATUS_OK
      && forall i :: !ready(i) ==> IsWaiting(waiting(i))
    }

    /** The READ reply of the network server. */
    function Reply(offset: nat, n: nat): Stored
      requires handle < 0x1_0000 && |header| == 7 && offset < 0x1_0000_0000 && n <= TCP_READ_CHUNK
    {
      var r := ReadData(source, offset, n);
      header + ReadBody(handle, offset, r.0, r.1)
    }

    function AsDevice(): Device
      requires handle < 0x1_0000 && |header| == 7
    {
      (i: nat, offset: nat, n: int) =>
        if !ready(i) then Exchange(true, waiting(i))
        else if offset < 0x1_0000_0000 && 0 <= n <= TCP_READ_CHUNK then Exchange(true, Reply(offset, n))
        else Exchange(false, [])
    }

    /** What there is to get. */
    function Wanted(cursor: nat, total: nat): nat {
      Min(total, Max(0, |source| - cursor))
    }
  }

  /** What one exchange does to the client: a wait leaves the payload alone, a reply puts its data there. */
  lemma LinkAnswers(link: Connection, i: nat, offset: nat, n: nat, before: Packet)
    requires link.Valid() && offset < 0x1_0000_0000 && n <= TCP_READ_CHUNK
    ensures var exchange := link.AsDevice()(i, offset, n);
      var rx := Received(before, exchange.stored);
      if !link.ready(i) then ChunkState(exchange.ok, rx) == NotReady && Payload(rx) == Payload(before)
      else
        var length := Max(0, Min(n, |link.source| - offset));
        && ChunkState(exchange.ok, rx) == Good(length, offset + length >= |link.source|, offset)
        && Payload(rx) ==
           if length == 0 then Payload(before)
           else Overlay(Payload(before), 0, link.source[offset..offset + length])
  {
    hide Received, ChunkState, Payload, Overlay, ReadBody, IsWaiting;
    if link.ready(i) {
      var r := ReadData(link.source, offset, n);
      ReplyStored(link.header, link.handle, offset, r.0, r.1, before);
    } else {
      WaitStored(link.waiting(i), before);
    }
  }

  lemma WaitStored(stored: Stored, before: Packet)
    requires IsWaiting(stored)
    ensures ChunkState(true, Received(before, stored)) == NotReady
    ensures Payload(Received(before, stored)) == Payload(before)
  {
    var rx := Received(before, stored);
    assert rx == stored + before[|stored|..];
    assert rx[5] == stored[5] && rx[6] == stored[6];
  }

  lemma ReplyStored(header: seq<byte>, handle: nat, offset: nat, data: seq<byte>, eof: bool, before: Packet)
    requires |header| == 7 && header[5] == 1 && header[6] == STATUS_OK && handle < 0x1_0000
    requires offset < 0x1_0000_0000 && |data| <= TCP_READ_CHUNK
    ensures var rx := Received(before, header + ReadBody(handle, offset, data, eof));
      && ChunkState(true, rx) == Good(|data|, eof, offset)
      && Payload(rx) == Overlay(Payload(before), 0, data)
      && (data == [] ==> Payload(rx) == Payload(before))
  {
    hide ReadBody, DataLen, Eof, EchoOffset;
    var stored := header + ReadBody(handle, offset, data, eof);
    ReplyFieldsFound(header, handle, offset, data, eof);
    var rx := Received(before, stored);
    assert rx == stored + before[|stored|..];
    SameFields(stored, rx);
    assert rx[5] == stored[5] == header[5] && rx[6] == stored[6] == header[6];
    assert rx[19..] == stored[19..] + before[|stored|..];
    assert before[19..][|data|..] == before[|stored|..];
    assert Overlay(before[19..], 0, data) == data + before[19..][|data|..];
  }

  lemma SameFields(a: seq<byte>, b: seq<byte>)
    requires |a| >= 19 && |b| >= 19 && a[..19] == b[..19]
    ensures DataLen(a) == DataLen(b) && Eof(a) == Eof(b) && EchoOffset(a) == EchoOffset(b)
  {
    assert forall k :: 0 <= k < 19 ==> a[k] == a[..19][k] && b[k] == b[..19][k];
  }

  /** How many of the next n chunks arrive, from request i on: a chunk is given up, and the rest with it,
      after `left` more requests that were not ready; each further chunk may take `retries` of them. */
  function Arriving(ready: nat -> bool, i: nat, n: nat, left: nat, retries: nat): (r: nat)
    ensures r <= n
    decreases n, left
  {
    if n == 0 then 0
    else if ready(i) then 1 + Arriving(ready, i + 1, n - 1, retries, retries)
    else if left == 0 then 0
    else Arriving(ready, i + 1, n, left - 1, retries)
  }

  /** ceil(n / 280) */
  function Chunks(n: nat): nat {
    (n + TCP_READ_CHUNK - 1) / TCP_READ_CHUNK
  }

  lemma ChunksLeft(n: nat)
    ensures Chunks(n) == 0 <==> n == 0
    ensures n >= TCP_READ_CHUNK ==> Chunks(n) == 1 + Chunks(n - TCP_READ_CHUNK)
    ensures 0 < n <= TCP_READ_CHUNK ==> Chunks(n) == 1
  {}

  /** A payload after n bytes from `from` on came in chunks, each from its first byte. */
  function Refilled(payload: seq<byte>, source: seq<byte>, from: nat, n: nat): seq<byte>
    requires from + n <= |source|
    decreases n
  {
    if n == 0 then payload
    else
      var k := Min(n, TCP_READ_CHUNK);
      Refilled(Overlay(payload, 0, source[from..from + k]), source, from + k, n - k)
  }

  lemma RefilledStep(payload: seq<byte>, source: seq<byte>, from: nat, n: nat)
    requires from + n <= |source| && n > 0
    ensures var k := Min(n, TCP_READ_CHUNK);
      var next := Overlay(payload, 0, source[from..from + k]);
      && Refilled(payload, source, from, n) == Refilled(next, source, from + k, n - k)
      && Refilled(next, source, from + k, 0) == next
  {}

  /** Where the last of n bytes' chunks starts. */
  function LastStart(n: nat): nat
    requires n > 0
  {
    (n - 1) / TCP_READ_CHUNK * TCP_READ_CHUNK
  }

  lemma LastStarts(n: nat)
    requires n > 0
    ensures LastStart(n) < n <= LastStart(n) + TCP_READ_CHUNK
    ensures n <= TCP_READ_CHUNK ==> LastStart(n) == 0
    ensures n > TCP_READ_CHUNK ==> LastStart(n) == LastStart(n - TCP_READ_CHUNK) + TCP_READ_CHUNK
  {
    if n > TCP_READ_CHUNK { assert (n - 1) / TCP_READ_CHUNK == (n - TCP_READ_CHUNK - 1) / TCP_READ_CHUNK + 1; }
  }

  /** Every byte of it: the last chunk, behind that what it left of the one before, behind that what was
      there at first. */
  lemma {:induction false} RefilledByte(payload: seq<byte>, source: seq<byte>, from: nat, n: nat, j: nat)
    requires from + n <= |source| && n > 0 && j < |payload| && |payload| >= TCP_READ_CHUNK
    ensures LastStart(n) < n <= LastStart(n) + TCP_READ_CHUNK
    ensures n > TCP_READ_CHUNK ==> LastStart(n) >= TCP_READ_CHUNK
    ensures |Refilled(payload, source, from, n)| == |payload|
    ensures Refilled(payload, source, from, n)[j] ==
      if j < n - LastStart(n) then source[from + LastStart(n) + j]
      else if n > TCP_READ_CHUNK && j < TCP_READ_CHUNK then source[from + LastStart(n) - TCP_READ_CHUNK + j]
      else payload[j]
    decreases n
  {
    hide Overlay, LastStart, Refilled;
    var k := Min(n, TCP_READ_CHUNK);
    var chunk := source[from..from + k];
    var next := Overlay(payload, 0, chunk);
    OverlayByte(payload, 0, chunk, j);
    RefilledStep(payload, source, from, n);
    LastStarts(n);
    if n > TCP_READ_CHUNK {
      RefilledByte(next, source, from + k, n - k, j);
      LastStarts(n - k);
    }
  }

  /** One request of the exact read against a server: a wait, the last chunk, or a full one and more to come. */
  lemma OneExchange(link: Connection, i: nat, cursor: nat, total: nat, got: nat, tries: nat, retries: nat,
                    before: Packet) returns (rx: Packet)
    requires link.Valid() && cursor < 0x1_0000_0000
    requires tries <= retries && got <= link.Wanted(cursor, total) && (got > 0 ==> got < link.Wanted(cursor, total))
    ensures var wanted := link.Wanted(cursor, total) - got;
      && TcpRead(link.AsDevice(), i, cursor, total, got, tries, retries, before) ==
         (if !link.ready(i) then
            if tries < retries && got < total
            then TcpRead(link.AsDevice(), i + 1, cursor, total, got, tries + 1, retries, rx)
            else Outcome(got, rx, i + 1)
          else if wanted <= TCP_READ_CHUNK then Outcome(got + wanted, rx, i + 1)
          else TcpRead(link.AsDevice(), i + 1, cursor, total, got + TCP_READ_CHUNK, 0, retries, rx))
      && Payload(rx) ==
         if !link.ready(i) || wanted == 0 then Payload(before)
         else
           var from := cursor + got;
           Overlay(Payload(before), 0, link.source[from..from + Min(wanted, TCP_READ_CHUNK)])
  {
    hide TcpRead, Received, ChunkState, Overlay, Payload, Connection.AsDevice;
    var n := Min(total - got, TCP_READ_CHUNK);
    TcpUnfold(link.AsDevice(), i, cursor, total, got, tries, retries, before);
    LinkAnswers(link, i, cursor + got, n, before);
    rx := Received(before, link.AsDevice()(i, cursor + got, n).stored);
  }

  /** The count returned and the payload left, in every case: as many full chunks as arrive, the last one
      cut to what was asked for or what there is, each stored over the one before. */
  lemma {:induction false} ServerReadOutcome(link: Connection, i: nat, cursor: nat, total: nat, got: nat, tries: nat,
                                             retries: nat, before: Packet)
    requires link.Valid() && cursor < 0x1_0000_0000
    requires tries <= retries && got <= link.Wanted(cursor, total) && (got > 0 ==> got < link.Wanted(cursor, total))
    ensures var wanted := link.Wanted(cursor, total) - got;
      var n := Min(wanted, TCP_READ_CHUNK * Arriving(link.ready, i, Chunks(wanted), retries - tries, retries));
      var r := TcpRead(link.AsDevice(), i, cursor, total, got, tries, retries, before);
      && r.count == got + n
      && Payload(r.rx) == if n == 0 then Payload(before) else Refilled(Payload(before), link.source, cursor + got, n)
    decreases total - got, retries - tries
  {
    hide TcpRead, Chunks, Overlay, Payload, Refilled, Connection.AsDevice;
    var wanted := link.Wanted(cursor, total) - got;
    var rx := OneExchange(link, i, cursor, total, got, tries, retries, before);
    ChunksLeft(wanted);
    if !link.ready(i) {
      if got < total && tries < retries {
        ServerReadOutcome(link, i + 1, cursor, total, got, tries + 1, retries, rx);
      }
    } else if wanted > TCP_READ_CHUNK {
      var now := got + TCP_READ_CHUNK;
      ServerReadOutcome(link, i + 1, cursor, total, now, 0, retries, rx);
      var rest := TcpRead(link.AsDevice(), i + 1, cursor, total, now, 0, retries, rx).count - now;
      RefilledStep(Payload(before), link.source, cursor + got, TCP_READ_CHUNK + rest);
    } else if wanted > 0 {
      RefilledStep(Payload(before), link.source, cursor + got, wanted);
    }
  }

  // ------------------------------------------------------ which counts are complete

  function ReadyCount(ready: nat -> bool, from: nat, to: nat): nat
    requires from <= to
    decreases (to as int) - from
  {
    if from == to then 0 else (if ready(from) then 1 else 0) + ReadyCount(ready, from + 1, to)
  }

  /** More than n requests from `from` on, none of them ready. */
  ghost predicate Waits(ready: nat -> bool, from: nat, n: nat) {
    forall k: nat :: from <= k <= from + n ==> !ready(k)
  }

  /** Before request `to`, no wait of more than `retries` requests, and none of more than `left` at once. */
  ghost predicate NoLongWait(ready: nat -> bool, from: nat, to: nat, left: nat, retries: nat) {
    && (from + left < to ==> !Waits(ready, from, left))
    && forall k: nat :: from <= k && k + retries < to ==> !Waits(ready, k, retries)
  }

  /** Among the first `to` requests just n are ready, with never more than `retries` running that are not. */
  ghost predicate Enough(ready: nat -> bool, from: nat, to: nat, n: nat, left: nat, retries: nat) {
    from <= to && ReadyCount(ready, from, to) == n && NoLongWait(ready, from, to, left, retries)
  }

  lemma WaitStep(ready: nat -> bool, from: nat, to: nat, n: nat, left: nat, retries: nat)
    requires left <= retries && n > 0
    ensures ready(from) ==>
      (Enough(ready, from, to, n, left, retries) <==> Enough(ready, from + 1, to, n - 1, retries, retries))
    ensures !ready(from) && left > 0 ==>
      (Enough(ready, from, to, n, left, retries) <==> Enough(ready, from + 1, to, n, left - 1, retries))
    ensures !ready(from) && left == 0 ==> !Enough(ready, from, to, n, left, retries)
  {
    if from < to {
      if ready(from) {
        assert !Waits(ready, from, left) && !Waits(ready, from, retries);
      } else {
        assert left > 0 ==> (Waits(ready, from, left) <==> Waits(ready, from + 1, left - 1));
        assert Waits(ready, from, retries) ==> Waits(ready, from, left);
        assert Waits(ready, from, 0);
      }
    }
  }

  lemma {:induction false} ArrivingIsEnough(ready: nat -> bool, i: nat, n: nat, left: nat, retries: nat)
    requires left <= retries
    ensures Arriving(ready, i, n, left, retries) == n <==> exists m: nat :: Enough(ready, i, m, n, left, retries)
    decreases n, left
  {
    hide NoLongWait, Enough;
    if n == 0 {
      assert Enough(ready, i, i, 0, left, retries) by { NothingToWaitFor(ready, i, left, retries); }
    } else {
      if m: nat :| Enough(ready, i, m, n, left, retries) { WaitStep(ready, i, m, n, left, retries); }
      var next, n', left' := i + 1, if ready(i) then n - 1 else n, if ready(i) then retries else left - 1;
      if ready(i) || left > 0 {
        ArrivingIsEnough(ready, next, n', left', retries);
        if m: nat :| Enough(ready, next, m, n', left', retries) { WaitStep(ready, i, m, n, left, retries); }
      }
    }
  }

  lemma NothingToWaitFor(ready: nat -> bool, i: nat, left: nat, retries: nat)
    ensures Enough(ready, i, i, 0, left, retries)
  {}

  /** The count returned is all that was asked for, or all there is, exactly when some front of the requests
      holds a ready one for each chunk of it and never more than `retries` running that are not. */
  lemma ServerCountIsExact(link: Connection, cursor: nat, total: nat, retries: nat, before: Packet)
    requires link.Valid() && cursor < 0x1_0000_0000
    ensures var wanted := link.Wanted(cursor, total);
      (TcpRead(link.AsDevice(), 0, cursor, total, 0, 0, retries, before).count == wanted <==>
       exists m: nat :: Enough(link.ready, 0, m, Chunks(wanted), retries, retries))
  {
    hide TcpRead, Enough;
    var wanted := link.Wanted(cursor, total);
    ServerReadOutcome(link, 0, cursor, total, 0, 0, retries, before);
    ChunksCover(wanted);
    ArrivingIsEnough(link.ready, 0, Chunks(wanted), retries, retries);
  }

  lemma ChunksCover(n: nat)
    ensures n <= TCP_READ_CHUNK * Chunks(n)
    ensures n > 0 ==> TCP_READ_CHUNK * (Chunks(n) - 1) < n
  {}

  // ------------------------------------------------- which bytes the caller can read

  /** The caller finds the bytes it was counted at FNpayload_byte(0) onwards. */
  ghost predicate PayloadReads(source: seq<byte>, cursor: nat, r: Outcome) {
    r.count == 0 ||
    (r.count <= |Payload(r.rx)| && cursor + r.count <= |source|
     && Payload(r.rx)[..r.count] == source[cursor..cursor + r.count])
  }

  /** The last chunk, behind it what it left of the one before, behind that what was in rxPacket. */
  ghost predicate LastTwoChunks(source: seq<byte>, cursor: nat, r: Outcome, before: Packet)
    requires 0 < r.count && cursor + r.count <= |source|
  {
    var last := LastStart(r.count);
    && TCP_READ_CHUNK <= last < r.count <= last + TCP_READ_CHUNK
    && (forall j :: 0 <= j < r.count - last ==> Payload(r.rx)[j] == source[cursor + last + j])
    && (forall j :: r.count - last <= j < TCP_READ_CHUNK ==>
          Payload(r.rx)[j] == source[cursor + last - TCP_READ_CHUNK + j])
    && (forall j :: TCP_READ_CHUNK <= j < |Payload(r.rx)| ==> Payload(r.rx)[j] == Payload(before)[j])
  }

  /** What the caller finds after an exact read: a count of at most one chunk comes with its bytes. After more
      than one, the last chunk lies over the one before, and nothing is left of any earlier one. */
  lemma ServerPayload(link: Connection, cursor: nat, total: nat, retries: nat, before: Packet)
    requires link.Valid() && cursor < 0x1_0000_0000
    ensures var r := TcpRead(link.AsDevice(), 0, cursor, total, 0, 0, retries, before);
      && (r.count > 0 ==> cursor + r.count <= |link.source|)
      && (r.count == 0 ==> Payload(r.rx) == Payload(before))
      && (r.count <= TCP_READ_CHUNK ==> PayloadReads(link.source, cursor, r))
      && (r.count > TCP_READ_CHUNK ==> LastTwoChunks(link.source, cursor, r, before))
  {
    hide TcpRead, Refilled, LastStart, Payload, PayloadReads, LastTwoChunks, Arriving, Connection.AsDevice;
    ServerReadOutcome(link, 0, cursor, total, 0, 0, retries, before);
    var r := TcpRead(link.AsDevice(), 0, cursor, total, 0, 0, retries, before);
    if r.count > 0 { RefilledReads(link.source, cursor, r, before); } else { NothingCounted(link.source, cursor, r); }
  }

  lemma NothingCounted(source: seq<byte>, cursor: nat, r: Outcome)
    requires r.count == 0
    ensures PayloadReads(source, cursor, r)
  {}

  lemma RefilledReads(source: seq<byte>, cursor: nat, r: Outcome, before: Packet)
    requires r.count > 0 && cursor + r.count <= |source|
    requires Payload(r.rx) == Refilled(Payload(before), source, cursor, r.count)
    ensures r.count <= TCP_READ_CHUNK ==> PayloadReads(source, cursor, r)
    ensures r.count > TCP_READ_CHUNK ==> LastTwoChunks(source, cursor, r, before)
  {
    hide Refilled, LastStart, Payload;
    LastStarts(r.count);
    forall j: nat | j < |Payload(r.rx)|
      ensures Payload(r.rx)[j] ==
        if j < r.count - LastStart(r.count) then source[cursor + LastStart(r.count) + j]
        else if r.count > TCP_READ_CHUNK && j < TCP_READ_CHUNK
        then source[cursor + LastStart(r.count) - TCP_READ_CHUNK + j]
        else Payload(before)[j]
    {
      RefilledByte(Payload(before), source, cursor, r.count, j);
    }
  }

  /** So the caller finds the right bytes, whatever they are, exactly when the count is at most one chunk. */
  lemma OneChunkReads(link: Connection, cursor: nat, total: nat, retries: nat, before: Packet)
    requires link.Valid() && cursor < 0x1_0000_0000
    ensures
      (forall source: seq<byte> :: |source| == |link.source| ==>
        PayloadReads(source, cursor,
                     TcpRead(link.(source := source).AsDevice(), 0, cursor, total, 0, 0, retries, before)))
      <==> TcpRead(link.AsDevice(), 0, cursor, total, 0, 0, retries, before).count <= TCP_READ_CHUNK
  {
    hide TcpRead, Arriving, Connection.AsDevice;
    hide PayloadReads, LastTwoChunks, Payload;
    var r := TcpRead(link.AsDevice(), 0, cursor, total, 0, 0, retries, before);
    forall source: seq<byte> | |source| == |link.source|
      ensures r.count <= TCP_READ_CHUNK ==>
        PayloadReads(source, cursor,
                     TcpRead(link.(source := source).AsDevice(), 0, cursor, total, 0, 0, retries, before))
    {
      SameCount(link, source, cursor, total, retries, before);
      ServerPayload(link.(source := source), cursor, total, retries, before);
    }
    ServerPayload(link, cursor, total, retries, before);
    if r.count > TCP_READ_CHUNK { LostByte(link, cursor, total, retries, before); }
  }

  /** A source whose first byte was overwritten, for any count of more than one chunk. */
  lemma LostByte(link: Connection, cursor: nat, total: nat, retries: nat, before: Packet)
    requires link.Valid() && cursor < |link.source|
    requires TcpRead(link.AsDevice(), 0, cursor, total, 0, 0, retries, before).count > TCP_READ_CHUNK
    ensures var source := Zeros(|link.source|)[cursor := 1];
      !PayloadReads(source, cursor,
                    TcpRead(link.(source := source).AsDevice(), 0, cursor, total, 0, 0, retries, before))
  {
    hide TcpRead, PayloadReads, Connection.AsDevice;
    var marked := link.(source := Zeros(|link.source|)[cursor := 1]);
    SameCount(link, marked.source, cursor, total, retries, before);
    ServerPayload(marked, cursor, total, retries, before);
    Overwritten(marked.source, cursor, TcpRead(marked.AsDevice(), 0, cursor, total, 0, 0, retries, before), before);
  }

  lemma Overwritten(source: seq<byte>, cursor: nat, r: Outcome, before: Packet)
    requires r.count > TCP_READ_CHUNK && cursor + r.count <= |source| && LastTwoChunks(source, cursor, r, before)
    requires source[cursor] == 1 && forall k :: cursor < k < |source| ==> source[k] == 0
    ensures !PayloadReads(source, cursor, r)
  {
    assert Payload(r.rx)[0] == source[cursor + LastStart(r.count)] == 0;
    assert source[cursor..cursor + r.count][0] == 1;
    if r.count <= |Payload(r.rx)| { assert Payload(r.rx)[..r.count][0] == 0; }
  }

  /** The count depends on how long the source is, not on its bytes. */
  lemma SameCount(link: Connection, source: seq<byte>, cursor: nat, total: nat, retries: nat, before: Packet)
    requires link.Valid() && |source| == |link.source| && cursor < 0x1_0000_0000
    ensures TcpRead(link.(source := source).AsDevice(), 0, cursor, total, 0, 0, retries, before).count
         == TcpRead(link.AsDevice(), 0, cursor, total, 0, 0, retries, before).count
  {
    hide TcpRead, Arriving, Payload, Refilled, Connection.AsDevice;
    ServerReadOutcome(link, 0, cursor, total, 0, 0, retries, before);
    ServerReadOutcome(link.(source := source), 0, cursor, total, 0, 0, retries, before);
  }

  /** 281 bytes from a server that is always ready: all are counted, and the first one read is the last. */
  lemma SecondChunkOverwrites(before: Packet)
    ensures var source: seq<byte> := Zeros(280) + [1];
      var link := Connection(source, _ => true, _ => [], 0, [0xFD, 2, 0, 0, 0, 1, 0]);
      var r := TcpRead(link.AsDevice(), 0, 0, 281, 0, 0, 0, before);
      r.count == 281 && Payload(r.rx)[0] == 1 != source[0]
  {
    hide TcpRead;
    var source: seq<byte> := Zeros(280) + [1];
    var link := Connection(source, _ => true, _ => [], 0, [0xFD, 2, 0, 0, 0, 1, 0]);
    assert link.Valid();
    assert Chunks(281) == 2 && Arriving(link.ready, 1, 1, 0, 0) == 1 && Arriving(link.ready, 0, 2, 0, 0) == 2;
    ServerReadOutcome(link, 0, 0, 281, 0, 0, 0, before);
    ServerPayload(link, 0, 281, 0, before);
    assert LastStart(281) == 280;
  }
}
